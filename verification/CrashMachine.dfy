/**
  The logging layer as a step machine.  System calls begin, log blocks and end in any
  interleaving; the last end_op starts a commit whose disk writes happen one sector at
  a time; a crash may strike between any two steps, also inside recovery.

  `State` is what the machine holds.  `Abs` is bookkeeping about operations that the
  code does not keep: it lets the theorems say which operations a disk image contains.
 */
module CrashMachine {
  import opened Params
  import opened LogSpec

  type OpId = nat

  datatype Phase =
    | Running                 // system calls may run
    | Logging(tail: nat)      // write_log has copied `tail` blocks; then write_head
    | Installing(tail: nat)   // install_trans has copied `tail` blocks; then the header is cleared
    | Finishing               // commit() returned, log.committing still set
    | Rebooted                // memory lost, initlog not yet run
    | Replaying(tail: nat)    // recover_from_log inside install_trans

  datatype State = State(disk: Disk, cache: Disk, lh: seq<nat>, outstanding: nat, phase: Phase)

  datatype Event =
    | Begin(id: OpId)
    | Write(id: OpId, b: nat, data: Sector)   // modify the buffer of block b, then log_write it
    | End(id: OpId)
    | Tick                                    // next disk write of a commit or a recovery
    | Crash

  datatype Abs = Abs(durable: Home, current: Home, active: set<OpId>, ended: set<OpId>,
                     committed: set<OpId>, begun: set<OpId>, used: map<OpId, nat>)

  datatype Config = Config(s: State, a: Abs)

  predicate Committing(s: State) {
    s.phase.Logging? || s.phase.Installing? || s.phase.Finishing?
  }

  /** Absorption: a block already in the header is not added again. */
  function LogBlock(lh: seq<nat>, b: nat): seq<nat> {
    if b in lh then lh else lh + [b]
  }

  predicate Enabled(g: Geometry, c: Config, e: Event) {
    match e
    case Begin(id) =>
      c.s.phase.Running? && id !in c.a.begun && |c.s.lh| + (c.s.outstanding + 1) * MAXOPBLOCKS <= LOGSIZE
    case Write(id, b, data) =>
      && id in c.a.active && IsHome(g, c.s.disk, b) && b < |c.s.cache|
      && |c.s.lh| < Capacity(g)   // otherwise log_write panics
    case End(id) => id in c.a.active
    case Tick => !c.s.phase.Running? && InRange(g, c.s)
    case Crash => true
  }

  /** The block numbers used by the next disk write are within the disk. */
  predicate InRange(g: Geometry, s: State) {
    match s.phase
    case Logging(t) =>
      if t < |s.lh| then g.start + 1 + t < |s.disk| && s.lh[t] < |s.cache| else g.start < |s.disk| && |s.lh| < WORDS
    case Installing(t) =>
      if t < |s.lh| then g.start + 1 + t < |s.disk| && s.lh[t] < |s.disk| else g.start < |s.disk|
    case Replaying(t) =>
      if t < |s.lh| then g.start + 1 + t < |s.disk| && s.lh[t] < |s.disk| else g.start < |s.disk|
    case _ => true
  }

  function TickStep(g: Geometry, s: State): State
    requires InRange(g, s)
  {
    match s.phase
    case Running => s
    case Logging(t) =>
      if t < |s.lh| then s.(disk := s.disk[g.start + 1 + t := s.cache[s.lh[t]]], phase := Logging(t + 1))
      else s.(disk := s.disk[g.start := HeadSector(s.disk[g.start], s.lh)], phase := Installing(0))
    case Installing(t) =>
      if t < |s.lh| then s.(disk := s.disk[s.lh[t] := s.disk[g.start + 1 + t]], phase := Installing(t + 1))
      else s.(disk := s.disk[g.start := HeadSector(s.disk[g.start], [])], lh := [], phase := Finishing)
    case Finishing => s.(phase := Running)
    case Rebooted => s.(lh := Header(g, s.disk), phase := Replaying(0))
    case Replaying(t) =>
      if t < |s.lh| then s.(disk := s.disk[s.lh[t] := s.disk[g.start + 1 + t]], phase := Replaying(t + 1))
      else
        var d := s.disk[g.start := HeadSector(s.disk[g.start], [])];
        s.(disk := d, cache := d, lh := [], phase := Running)
  }

  function Step(g: Geometry, c: Config, e: Event): State
    requires Enabled(g, c, e)
  {
    var s := c.s;
    match e
    case Begin(id) => s.(outstanding := s.outstanding + 1)
    case Write(id, b, data) => s.(cache := s.cache[b := data], lh := LogBlock(s.lh, b))
    case End(id) =>
      var left := if s.outstanding == 0 then 0 else s.outstanding - 1;
      s.(outstanding := left,
         phase := if left > 0 then s.phase else if s.lh != [] then Logging(0) else Finishing)
    case Tick => TickStep(g, s)
    case Crash => State(s.disk, s.disk, [], 0, Rebooted)
  }

  function CommitAbs(a: Abs): Abs {
    a.(durable := a.current, committed := a.committed + a.ended, ended := {})
  }

  function AbsStep(c: Config, e: Event): Abs {
    var a := c.a;
    match e
    case Begin(id) => a.(active := a.active + {id}, begun := a.begun + {id}, used := a.used[id := 0])
    case Write(id, b, data) =>
      var before := if id in a.used then a.used[id] else 0;
      a.(current := a.current[b := data],
         used := a.used[id := if b in c.s.lh then before else before + 1])
    case End(id) =>
      var a' := a.(active := a.active - {id}, ended := a.ended + {id});
      if c.s.outstanding == 1 && c.s.lh == [] then CommitAbs(a') else a'
    case Tick => if c.s.phase == Logging(|c.s.lh|) then CommitAbs(a) else a
    case Crash => a.(current := a.durable, active := {}, ended := {})
  }

  /** What holds of every state, whatever happened before. */
  ghost predicate Inv(g: Geometry, s: State) {
    && HeaderOk(g, s.disk) && |s.cache| == |s.disk|
    && Loggable(g, s.disk, s.lh)
    && (!s.phase.Running? ==> s.outstanding == 0)
    && match s.phase
       case Running => s.disk[g.start][0] == 0 && Clean(g, s)
       case Logging(t) =>
         s.disk[g.start][0] == 0 && Clean(g, s) && t <= |s.lh| && SlotsFilled(g, s, t)
       case Installing(t) =>
         && Header(g, s.disk) == s.lh && t <= |s.lh|
         && Clean(g, s) && SlotsFilled(g, s, |s.lh|)
         && Installed(s, t)
       case Finishing => s.disk[g.start][0] == 0 && Clean(g, s) && s.lh == []
       case Rebooted => s.lh == []
       case Replaying(t) =>
         && Header(g, s.disk) == s.lh && t <= |s.lh|
         && (forall i :: 0 <= i < t ==> s.disk[s.lh[i]] == s.disk[g.start + 1 + i])
  }

  /** The cache differs from the disk only at blocks named in the in-memory header. */
  ghost predicate Clean(g: Geometry, s: State)
    requires |s.cache| == |s.disk|
  {
    forall b: nat :: IsHome(g, s.disk, b) && b !in s.lh ==> s.cache[b] == s.disk[b]
  }

  ghost predicate SlotsFilled(g: Geometry, s: State, t: nat)
    requires Fits(g, s.disk) && |s.cache| == |s.disk| && Loggable(g, s.disk, s.lh) && t <= |s.lh|
  {
    forall i :: 0 <= i < t ==> s.disk[g.start + 1 + i] == s.cache[s.lh[i]]
  }

  ghost predicate Installed(s: State, t: nat) {
    forall i :: 0 <= i < t && i < |s.lh| && s.lh[i] < |s.disk| && s.lh[i] < |s.cache| ==>
      s.disk[s.lh[i]] == s.cache[s.lh[i]]
  }

  /** How the operation bookkeeping describes the machine. */
  ghost predicate Rel(g: Geometry, c: Config) {
    && c.a.durable == Recovered(g, c.s.disk)
    && c.a.current == (if c.s.phase.Rebooted? || c.s.phase.Replaying? then c.a.durable else HomeOf(g, c.s.cache))
    && |c.a.active| == c.s.outstanding
    && c.a.active !! c.a.ended && c.a.active !! c.a.committed && c.a.ended !! c.a.committed
    && c.a.active + c.a.ended + c.a.committed <= c.a.begun
    && (c.s.lh == [] && c.s.phase.Running? ==> c.a.durable == c.a.current)
    && (c.s.phase.Installing? || c.s.phase.Finishing? || c.s.phase.Rebooted? || c.s.phase.Replaying?
        ==> c.a.ended == {} && c.a.durable == c.a.current)
  }

  // ---- One step keeps the invariant -------------------------------------------------

  lemma SystemCallKeepsInv(g: Geometry, c: Config, e: Event)
    requires Inv(g, c.s) && Rel(g, c) && Enabled(g, c, e) && (e.Begin? || e.Write? || e.End?)
    ensures Inv(g, Step(g, c, e))
  {
  }

  /** Only a running log has operations in it: "committing implies outstanding == 0". */
  lemma SystemCallsRunOutsideCommit(g: Geometry, c: Config, e: Event)
    requires Inv(g, c.s) && Rel(g, c) && Enabled(g, c, e) && (e.Begin? || e.Write? || e.End?)
    ensures c.s.phase.Running? && (e.End? ==> c.s.outstanding >= 1)
  {
    hide Recovered, HomeOf, HeaderOk;
    assert e.Write? || e.End? ==> c.a.active != {};
  }

  lemma CacheWriteHome(g: Geometry, cache: Disk, b: nat, data: Sector)
    requires IsHome(g, cache, b)
    ensures HomeOf(g, cache[b := data]) == HomeOf(g, cache)[b := data]
  {
  }

  lemma BeginKeepsRel(g: Geometry, c: Config, e: Event)
    requires Inv(g, c.s) && Rel(g, c) && Enabled(g, c, e) && e.Begin?
    ensures Inv(g, Step(g, c, e)) && Rel(g, Config(Step(g, c, e), AbsStep(c, e)))
  {
  }

  lemma WriteKeepsRel(g: Geometry, c: Config, e: Event)
    requires Inv(g, c.s) && Rel(g, c) && Enabled(g, c, e) && e.Write?
    ensures Inv(g, Step(g, c, e)) && Rel(g, Config(Step(g, c, e), AbsStep(c, e)))
  {
    hide Inv, Recovered, HomeOf;
    SystemCallKeepsInv(g, c, e);
    SystemCallsRunOutsideCommit(g, c, e);
    CacheWriteHome(g, c.s.cache, e.b, e.data);
  }

  lemma EndSets(a: Abs, id: OpId)
    requires id in a.active && a.active !! a.ended && a.active !! a.committed && a.ended !! a.committed
    ensures var a' := a.(active := a.active - {id}, ended := a.ended + {id});
            && a'.active !! a'.ended && a'.active !! a'.committed && a'.ended !! a'.committed
            && a'.active + a'.ended + a'.committed == a.active + a.ended + a.committed
            && |a'.active| == |a.active| - 1
  {
  }

  lemma EndKeepsRel(g: Geometry, c: Config, e: Event)
    requires Inv(g, c.s) && Rel(g, c) && Enabled(g, c, e) && e.End?
    ensures Inv(g, Step(g, c, e)) && Rel(g, Config(Step(g, c, e), AbsStep(c, e)))
  {
    hide Inv, Recovered, HomeOf;
    SystemCallKeepsInv(g, c, e);
    SystemCallsRunOutsideCommit(g, c, e);
    EndSets(c.a, e.id);
  }

  lemma LoggingTick(g: Geometry, s: State)
    requires Inv(g, s) && s.phase.Logging? && s.phase.tail < |s.lh|
    ensures InRange(g, s) && Inv(g, TickStep(g, s)) && Recovered(g, TickStep(g, s).disk) == Recovered(g, s.disk)
  {
  }

  /** The commit point: recovery of the new disk yields exactly the cached blocks. */
  lemma CommitTick(g: Geometry, s: State)
    requires Inv(g, s) && s.phase == Logging(|s.lh|)
    ensures InRange(g, s) && Inv(g, TickStep(g, s)) && Recovered(g, TickStep(g, s).disk) == HomeOf(g, s.cache)
  {
    HeadWriteCommits(g, s.disk, s.lh);
    RecoveredIs(g, TickStep(g, s).disk, s.cache);
  }

  /** Copying a home block leaves the log slots, and the homes already copied, as they were. */
  lemma InstallFrame(g: Geometry, s: State, s': State, t: nat)
    requires Fits(g, s.disk) && |s.cache| == |s.disk| && Loggable(g, s.disk, s.lh) && t < |s.lh|
    requires SlotsFilled(g, s, |s.lh|) && Clean(g, s) && Installed(s, t)
    requires s' == s.(disk := s.disk[s.lh[t] := s.disk[g.start + 1 + t]], phase := Installing(t + 1))
    ensures Loggable(g, s'.disk, s.lh)
    ensures SlotsFilled(g, s', |s.lh|) && Clean(g, s') && Installed(s', t + 1)
  {
  }

  lemma InstallInRange(g: Geometry, s: State)
    requires Inv(g, s) && s.phase.Installing? && s.phase.tail < |s.lh|
    ensures InRange(g, s) && Fits(g, s.disk) && s.phase.tail < s.disk[g.start][0]
    ensures s.lh[s.phase.tail] == Header(g, s.disk)[s.phase.tail]
  {
  }

  lemma InstallTick(g: Geometry, s: State)
    requires Inv(g, s) && s.phase.Installing? && s.phase.tail < |s.lh|
    ensures InRange(g, s) && Inv(g, TickStep(g, s)) && Recovered(g, TickStep(g, s).disk) == Recovered(g, s.disk)
  {
    hide Recovered, HeaderOk, SlotsFilled, Clean, Installed, Loggable, Header, IsHome;
    InstallInRange(g, s);
    InstallInvisible(g, s.disk, s.phase.tail);
    InstallFrame(g, s, TickStep(g, s), s.phase.tail);
  }

  lemma ReplayTick(g: Geometry, s: State)
    requires Inv(g, s) && s.phase.Replaying? && s.phase.tail < |s.lh|
    ensures InRange(g, s) && Inv(g, TickStep(g, s)) && Recovered(g, TickStep(g, s).disk) == Recovered(g, s.disk)
  {
    hide Recovered, HeaderOk, Loggable, Header, IsHome;
    ReplayInRange(g, s);
    InstallInvisible(g, s.disk, s.phase.tail);
    ReplayFrame(g, s.disk, s.lh, s.phase.tail);
  }

  lemma ReplayInRange(g: Geometry, s: State)
    requires Inv(g, s) && s.phase.Replaying? && s.phase.tail < |s.lh|
    ensures InRange(g, s) && Fits(g, s.disk) && s.phase.tail < s.disk[g.start][0] && g.start + |s.lh| < |s.disk|
    ensures s.lh[s.phase.tail] == Header(g, s.disk)[s.phase.tail]
    ensures forall i :: 0 <= i < s.phase.tail ==> s.lh[i] < |s.disk| && s.disk[s.lh[i]] == s.disk[g.start + 1 + i]
  {
    hide Recovered;
    assert IsHome(g, s.disk, s.lh[s.phase.tail]);
    forall i | 0 <= i < s.phase.tail ensures s.lh[i] < |s.disk| && s.disk[s.lh[i]] == s.disk[g.start + 1 + i] {
      assert IsHome(g, s.disk, s.lh[i]);
    }
  }

  /** Replaying one more block keeps the header's blocks loggable and those replayed before in place. */
  lemma ReplayFrame(g: Geometry, d: Disk, lh: seq<nat>, t: nat)
    requires Fits(g, d) && Loggable(g, d, lh) && t < |lh| && lh[t] < |d| && g.start + |lh| < |d|
    requires forall i :: 0 <= i < t ==> lh[i] < |d| && d[lh[i]] == d[g.start + 1 + i]
    ensures var d' := d[lh[t] := d[g.start + 1 + t]];
            && Loggable(g, d', lh)
            && forall i :: 0 <= i < t + 1 ==> lh[i] < |d'| && d'[lh[i]] == d'[g.start + 1 + i]
  {
    var d' := d[lh[t] := d[g.start + 1 + t]];
    assert IsHome(g, d, lh[t]);
    forall i | 0 <= i < t + 1 ensures lh[i] < |d'| && d'[lh[i]] == d'[g.start + 1 + i] {
      assert InLog(g, g.start + 1 + i) && IsHome(g, d, lh[i]);
    }
    hide Distinct;
  }

  /** Clearing the header once every slot is home: what was recoverable is now simply there. */
  lemma ClearHead(g: Geometry, d: Disk)
    requires HeaderOk(g, d)
    requires forall i :: 0 <= i < |Header(g, d)| ==> d[Header(g, d)[i]] == d[g.start + 1 + i]
    ensures var d' := d[g.start := HeadSector(d[g.start], [])];
            && HeaderOk(g, d') && d'[g.start][0] == 0
            && Recovered(g, d') == Recovered(g, d) == HomeOf(g, d')
  {
    var d' := d[g.start := HeadSector(d[g.start], [])];
    HeadWriteCommits(g, d, []);
    assert InLog(g, g.start);
    hide Recovered, HeaderOk, Header;
    RecoveredWithEmptyHeader(g, d');
    RecoveredIs(g, d, d');
  }

  lemma ClearTick(g: Geometry, s: State)
    requires Inv(g, s) && (s.phase.Installing? || s.phase.Replaying?) && s.phase.tail == |s.lh|
    ensures InRange(g, s) && Inv(g, TickStep(g, s)) && Recovered(g, TickStep(g, s).disk) == Recovered(g, s.disk)
    ensures HomeOf(g, TickStep(g, s).disk) == Recovered(g, s.disk)
  {
    hide Recovered, HeaderOk, SlotsFilled, Installed, Header, Clean, Loggable, HomeOf;
    ClearReady(g, s);
    ClearHead(g, s.disk);
    ClearClean(g, s);
  }

  lemma ClearReady(g: Geometry, s: State)
    requires Inv(g, s) && (s.phase.Installing? || s.phase.Replaying?) && s.phase.tail == |s.lh|
    ensures Fits(g, s.disk) && Header(g, s.disk) == s.lh
    ensures forall i :: 0 <= i < |s.lh| ==> s.lh[i] < |s.disk| && s.disk[s.lh[i]] == s.disk[g.start + 1 + i]
  {
    hide Recovered;
    forall i | 0 <= i < |s.lh| ensures s.lh[i] < |s.disk| && s.disk[s.lh[i]] == s.disk[g.start + 1 + i] {
      assert IsHome(g, s.disk, s.lh[i]);
    }
  }

  lemma ClearClean(g: Geometry, s: State)
    requires Inv(g, s) && (s.phase.Installing? || s.phase.Replaying?) && s.phase.tail == |s.lh|
    ensures InRange(g, s) && Clean(g, TickStep(g, s)) && Loggable(g, TickStep(g, s).disk, [])
  {
    hide Recovered;
    forall b: nat | IsHome(g, s.disk, b) && b in s.lh && s.phase.Installing? ensures s.cache[b] == s.disk[b] {
      var i :| 0 <= i < |s.lh| && s.lh[i] == b;
    }
  }

  lemma TickKeeps(g: Geometry, c: Config)
    requires Inv(g, c.s) && Rel(g, c) && !c.s.phase.Running?
    ensures Enabled(g, c, Tick) && Inv(g, Step(g, c, Tick)) && Rel(g, Config(Step(g, c, Tick), AbsStep(c, Tick)))
  {
    match c.s.phase
    case Logging(t) => if t < |c.s.lh| { LoggingTick(g, c.s); } else { CommitTick(g, c.s); }
    case Installing(t) => if t < |c.s.lh| { InstallTick(g, c.s); } else { ClearTick(g, c.s); }
    case Replaying(t) => if t < |c.s.lh| { ReplayTick(g, c.s); } else { ClearTick(g, c.s); }
    case Finishing =>
    case Rebooted =>
  }

  lemma StepKeeps(g: Geometry, c: Config, e: Event)
    requires Inv(g, c.s) && Rel(g, c) && Enabled(g, c, e)
    ensures Inv(g, Step(g, c, e)) && Rel(g, Config(Step(g, c, e), AbsStep(c, e)))
  {
    match e
    case Begin(_) => BeginKeepsRel(g, c, e);
    case Write(_, _, _) => WriteKeepsRel(g, c, e);
    case End(_) => EndKeepsRel(g, c, e);
    case Tick => TickKeeps(g, c);
    case Crash =>
  }
}
