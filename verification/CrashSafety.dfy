/**
  Whole runs of the logging layer: crash atomicity, durability, and the log-space
  reservation that begin_op makes for every operation.
 */
module CrashSafety {
  import opened Params
  import opened LogSpec
  import opened CrashMachine

  /** A disk as mkfs leaves it: the log fits and its header is empty. */
  predicate Formatted(g: Geometry, d: Disk) {
    Fits(g, d) && d[g.start][0] == 0
  }

  function Boot(g: Geometry, d: Disk): Config {
    Config(State(d, d, [], 0, Rebooted), Abs(HomeOf(g, d), HomeOf(g, d), {}, {}, {}, {}, map[]))
  }

  datatype Outcome = Stuck | At(c: Config)

  /** The configuration after the events; Stuck if some event was not possible when it came. */
  function Run(g: Geometry, d: Disk, es: seq<Event>): Outcome
    decreases |es|
  {
    if es == [] then At(Boot(g, d))
    else
      match Run(g, d, es[..|es| - 1])
      case Stuck => Stuck
      case At(c) => if Enabled(g, c, es[|es| - 1]) then At(Next(g, c, es[|es| - 1])) else Stuck
  }

  function Next(g: Geometry, c: Config, e: Event): Config
    requires Enabled(g, c, e)
  {
    Config(Step(g, c, e), AbsStep(c, e))
  }

  /** Every reachable configuration satisfies the invariant of the machine. */
  lemma {:induction false} RunInv(g: Geometry, d: Disk, es: seq<Event>)
    requires Formatted(g, d) && Run(g, d, es).At?
    ensures Inv(g, Run(g, d, es).c.s) && Rel(g, Run(g, d, es).c)
    decreases |es|
  {
    if es == [] {
      BootKeeps(g, d);
    } else {
      RunInv(g, d, es[..|es| - 1]);
      StepKeeps(g, Run(g, d, es[..|es| - 1]).c, es[|es| - 1]);
    }
  }

  lemma BootKeeps(g: Geometry, d: Disk)
    requires Formatted(g, d)
    ensures Inv(g, Boot(g, d).s) && Rel(g, Boot(g, d))
  {
  }

  // ---- Crash atomicity ---------------------------------------------------------------

  /** The blocks after the writes of the operations in `ops`, and of no others, in run order. */
  function Replay(h: Home, es: seq<Event>, ops: set<OpId>): Home
    decreases |es|
  {
    if es == [] then h
    else
      var last := es[|es| - 1];
      var before := Replay(h, es[..|es| - 1], ops);
      if last.Write? && last.id in ops then before[last.b := last.data] else before
  }

  predicate HasEnded(es: seq<Event>, id: OpId) {
    exists i :: 0 <= i < |es| && es[i] == End(id)
  }

  /** Operations that never wrote do not change the replay. */
  lemma {:induction false} ReplayFresh(h: Home, es: seq<Event>, ops: set<OpId>, id: OpId)
    requires forall i :: 0 <= i < |es| && es[i].Write? ==> es[i].id != id
    ensures Replay(h, es, ops + {id}) == Replay(h, es, ops)
    decreases |es|
  {
    if es != [] {
      ReplayFresh(h, es[..|es| - 1], ops, id);
    }
  }

  /** The bookkeeping `a` is what the events `es` did to the blocks `h`. */
  ghost predicate Explained(h: Home, es: seq<Event>, a: Abs) {
    && a.durable == Replay(h, es, a.committed)
    && a.current == Replay(h, es, a.committed + a.ended + a.active)
    && (forall id :: id in a.committed || id in a.ended ==> HasEnded(es, id))
    && (forall i :: 0 <= i < |es| && es[i].Write? ==> es[i].id in a.begun)
  }

  lemma EndedGrows(es: seq<Event>, e: Event, id: OpId)
    requires HasEnded(es, id) || e == End(id)
    ensures HasEnded(es + [e], id)
  {
    if HasEnded(es, id) {
      var i :| 0 <= i < |es| && es[i] == End(id);
      assert (es + [e])[i] == End(id);
    } else {
      assert (es + [e])[|es|] == End(id);
    }
  }

  /** How one event may change the bookkeeping. */
  ghost predicate AbsMove(a: Abs, e: Event, a': Abs) {
    match e
    case Begin(id) => id !in a.begun && a' == a.(active := a.active + {id}, begun := a.begun + {id}, used := a'.used)
    case Write(id, b, data) => id in a.active && a' == a.(current := a.current[b := data], used := a'.used)
    case End(id) =>
      id in a.active &&
      var m := a.(active := a.active - {id}, ended := a.ended + {id});
      a' == m || (a' == CommitAbs(m) && a.active == {id})
    case Tick => a' == a || (a' == CommitAbs(a) && a.active == {})
    case Crash => a' == a.(current := a.durable, active := {}, ended := {})
  }

  lemma AbsStepMoves(g: Geometry, c: Config, e: Event)
    requires Inv(g, c.s) && Rel(g, c) && Enabled(g, c, e)
    ensures AbsMove(c.a, e, AbsStep(c, e))
  {
    if e.End? && c.s.outstanding == 1 { OnlyOne(c.a.active, e.id); }
  }

  /** One event changes the two replays exactly as it changes the bookkeeping. */
  lemma ReplayStep(h: Home, es: seq<Event>, e: Event, a: Abs, a': Abs)
    requires a.durable == Replay(h, es, a.committed)
    requires a.current == Replay(h, es, a.committed + a.ended + a.active)
    requires forall i :: 0 <= i < |es| && es[i].Write? ==> es[i].id in a.begun
    requires a.active !! a.ended && a.active !! a.committed && a.ended !! a.committed
    requires AbsMove(a, e, a')
    ensures a'.durable == Replay(h, es + [e], a'.committed)
    ensures a'.current == Replay(h, es + [e], a'.committed + a'.ended + a'.active)
  {
    var before := a.committed + a.ended + a.active;
    var after := a'.committed + a'.ended + a'.active;
    ReplayAppend(h, es, e, a'.committed);
    ReplayAppend(h, es, e, after);
    match e {
      case Begin(id) =>
        ReplayFresh(h, es, before, id);
        assert after == before + {id};
      case Write(_, _, _) => assert after == before;
      case End(_) =>
        assert after == before;
        assert a'.committed == before || a'.committed == a.committed;
      case Tick =>
        assert after == before;
        assert a'.committed == before || a'.committed == a.committed;
      case Crash => assert after == a.committed;
    }
  }

  lemma ReplayAppend(h: Home, es: seq<Event>, e: Event, ops: set<OpId>)
    ensures Replay(h, es + [e], ops) ==
            if e.Write? && e.id in ops then Replay(h, es, ops)[e.b := e.data] else Replay(h, es, ops)
  {
  }

  lemma {:induction false} RunExplained(g: Geometry, d: Disk, es: seq<Event>)
    requires Formatted(g, d) && Run(g, d, es).At?
    ensures Explained(HomeOf(g, d), es, Run(g, d, es).c.a)
    decreases |es|
  {
    hide Inv, Rel, Step, AbsStep, Enabled, AbsMove, Explained, HomeOf, Boot;
    if es == [] {
      BootExplained(g, d);
    } else {
      var es0, e := es[..|es| - 1], es[|es| - 1];
      RunExplained(g, d, es0);
      RunInv(g, d, es0);
      var c := Run(g, d, es0).c;
      AbsStepMoves(g, c, e);
      RelSets(g, c);
      ExplainedStep(HomeOf(g, d), es0, c.a, e, AbsStep(c, e));
      assert es == es0 + [e];
    }
  }

  lemma BootExplained(g: Geometry, d: Disk)
    requires Formatted(g, d)
    ensures Explained(HomeOf(g, d), [], Boot(g, d).a)
  {
  }

  lemma RelSets(g: Geometry, c: Config)
    requires Rel(g, c)
    ensures c.a.active !! c.a.ended && c.a.active !! c.a.committed
    ensures c.a.ended !! c.a.committed && c.a.active <= c.a.begun
  {
  }

  lemma ExplainedStep(h: Home, es: seq<Event>, a: Abs, e: Event, a': Abs)
    requires Explained(h, es, a) && AbsMove(a, e, a')
    requires a.active !! a.ended && a.active !! a.committed && a.ended !! a.committed && a.active <= a.begun
    ensures Explained(h, es + [e], a')
  {
    forall id | id in a'.committed || id in a'.ended ensures HasEnded(es + [e], id) {
      EndedGrows(es, e, id);
    }
    ReplayStep(h, es, e, a, a');
  }

  lemma OnlyOne(s: set<OpId>, id: OpId)
    requires |s| == 1 && id in s
    ensures s == {id}
  {
    assert |s - {id}| == 0;
  }

  /**
    Crash atomicity.  After any run whatsoever, crashes inside commits and inside
    recoveries included, the blocks that recovery restores from the disk are the initial
    blocks plus all writes, in order, of a set of operations, each of which had called
    end_op.  No write of any other operation is among them.
   */
  lemma CrashAtomicity(g: Geometry, d: Disk, es: seq<Event>)
    requires Formatted(g, d) && Run(g, d, es).At?
    ensures var c := Run(g, d, es).c;
            && Recovered(g, c.s.disk) == Replay(HomeOf(g, d), es, c.a.committed)
            && forall id :: id in c.a.committed ==> HasEnded(es, id)
  {
    RunExplained(g, d, es);
    RunInv(g, d, es);
    hide Run, Recovered, Replay;
  }

  /** Durability: what is committed stays committed, whatever follows. */
  lemma {:induction false} CommittedForever(g: Geometry, d: Disk, es: seq<Event>, more: seq<Event>)
    requires Formatted(g, d) && Run(g, d, es + more).At?
    ensures Run(g, d, es).At?
    ensures Run(g, d, es).c.a.committed <= Run(g, d, es + more).c.a.committed
    decreases |more|
  {
    if more == [] {
      assert es + more == es;
    } else {
      var es' := es + more[..|more| - 1];
      assert (es + more)[..|es + more| - 1] == es';
      CommittedForever(g, d, es, more[..|more| - 1]);
      assert Run(g, d, es + more).c == Next(g, Run(g, d, es').c, more[|more| - 1]);
    }
  }

  /** Event i ended operation id, and the machine has not crashed since. */
  predicate EndedAt(es: seq<Event>, i: int, id: OpId) {
    0 <= i < |es| && es[i] == End(id) && forall j :: i < j < |es| ==> !es[j].Crash?
  }

  /** An operation that has ended waits for the commit or has been committed. */
  lemma {:induction false} EndedIsKept(g: Geometry, d: Disk, es: seq<Event>, i: int, id: OpId)
    requires Formatted(g, d) && Run(g, d, es).At? && EndedAt(es, i, id)
    ensures id in Run(g, d, es).c.a.ended || id in Run(g, d, es).c.a.committed
    decreases |es|
  {
    hide Inv, Rel, Step, AbsStep, Enabled, Boot;
    var n := |es| - 1;
    RunInv(g, d, es[..n]);
    AbsStepMoves(g, Run(g, d, es[..n]).c, es[n]);
    if i < n {
      assert EndedAt(es[..n], i, id);
      EndedIsKept(g, d, es[..n], i, id);
    }
  }

  /** A prefix of a run is a run. */
  lemma {:induction false} PrefixRuns(g: Geometry, d: Disk, es: seq<Event>, q: nat)
    requires Run(g, d, es).At? && q <= |es|
    ensures Run(g, d, es[..q]).At?
    decreases |es|
  {
    if q < |es| {
      PrefixRuns(g, d, es[..|es| - 1], q);
      assert es[..|es| - 1][..q] == es[..q];
    } else {
      assert es[..q] == es;
    }
  }

  /** No operation is under way after the first q events. */
  ghost predicate Quiescent(g: Geometry, d: Disk, es: seq<Event>, q: nat) {
    q <= |es| && Run(g, d, es[..q]).At? && Run(g, d, es[..q]).c.a.active == {}
  }

  /**
    Whatever operations ran side by side, and however often the machine crashed, the recoverable blocks are
    the current ones of some moment at which no operation was under way.
   */
  lemma {:induction false} RecoversQuiescent(g: Geometry, d: Disk, es: seq<Event>) returns (q: nat)
    requires Formatted(g, d) && Run(g, d, es).At?
    ensures Quiescent(g, d, es, q) && Recovered(g, Run(g, d, es).c.s.disk) == Run(g, d, es[..q]).c.a.current
    decreases |es|
  {
    hide Inv, Rel, Step, AbsStep, Enabled, Recovered, HomeOf, AbsMove, Boot, Formatted;
    RunInv(g, d, es);
    DurableIs(g, Run(g, d, es).c);
    if es == [] {
      q := 0;
      BootQuiet(g, d);
    } else {
      var n := |es| - 1;
      var c := Run(g, d, es[..n]).c;
      RunInv(g, d, es[..n]);
      DurableIs(g, c);
      AbsStepMoves(g, c, es[n]);
      var a := Run(g, d, es).c.a;
      DurableMoves(c.a, es[n], a);
      if a.durable == a.current && a.active == {} {
        q := |es|;
        assert es[..q] == es;
      } else {
        assert a.durable == c.a.durable;
        q := RecoversQuiescent(g, d, es[..n]);
        assert es[..n][..q] == es[..q];
      }
    }
  }

  lemma DurableMoves(a: Abs, e: Event, a': Abs)
    requires AbsMove(a, e, a')
    ensures a'.durable == a.durable || (a'.durable == a'.current && a'.active == {})
  {
  }

  lemma DurableIs(g: Geometry, c: Config)
    requires Rel(g, c)
    ensures c.a.durable == Recovered(g, c.s.disk)
  {
  }

  lemma BootQuiet(g: Geometry, d: Disk)
    ensures Run(g, d, []) == At(Boot(g, d)) && Boot(g, d).a.active == {} && Boot(g, d).a.durable == Boot(g, d).a.current
  {
  }

  /** Operation id is under way, waits for the commit, or is committed. */
  predicate Kept(a: Abs, id: OpId) { id in a.active || id in a.ended || id in a.committed }

  lemma {:induction false} WriterIsKept(g: Geometry, d: Disk, es: seq<Event>, i: nat)
    requires Formatted(g, d) && Run(g, d, es).At? && i < |es| && es[i].Write?
    requires forall j :: i < j < |es| ==> !es[j].Crash?
    ensures Kept(Run(g, d, es).c.a, es[i].id)
    decreases |es|
  {
    hide Inv, Rel, Step, AbsStep, Enabled, Boot;
    var n := |es| - 1;
    RunInv(g, d, es[..n]);
    AbsStepMoves(g, Run(g, d, es[..n]).c, es[n]);
    if i < n {
      assert es[..n][i] == es[i];
      WriterIsKept(g, d, es[..n], i);
    }
  }

  /** Nothing is committed before what was written before it. */
  lemma {:induction false} OlderIsCommitted(g: Geometry, d: Disk, es: seq<Event>, i: nat, j: nat)
    requires Formatted(g, d) && Run(g, d, es).At? && i < j < |es| && es[i].Write? && es[j].Write?
    requires forall k :: i < k < j ==> !es[k].Crash?
    ensures var a := Run(g, d, es).c.a;
            && (es[j].id in a.active || es[j].id in a.ended ==> Kept(a, es[i].id))
            && (es[j].id in a.committed ==> es[i].id in a.committed)
    decreases |es|
  {
    hide Inv, Rel, Step, AbsStep, Enabled, Boot, AbsMove, Kept;
    var n := |es| - 1;
    var c := Run(g, d, es[..n]).c;
    RunInv(g, d, es[..n]);
    RelSets(g, c);
    AbsStepMoves(g, c, es[n]);
    assert es[..n][i] == es[i];
    if j == n {
      WriterIsKept(g, d, es[..n], i);
      OlderWhileWriting(c.a, es[n], AbsStep(c, es[n]), es[i].id);
    } else {
      assert es[..n][j] == es[j];
      OlderIsCommitted(g, d, es[..n], i, j);
      WriterHasBegun(g, d, es[..n], j);
      OlderStaysAhead(c.a, es[n], AbsStep(c, es[n]), es[i].id, es[j].id);
    }
  }

  lemma WriterHasBegun(g: Geometry, d: Disk, es: seq<Event>, j: nat)
    requires Formatted(g, d) && Run(g, d, es).At? && j < |es| && es[j].Write?
    ensures es[j].id in Run(g, d, es).c.a.begun
  {
    RunExplained(g, d, es);
    hide Run, Formatted, Replay;
  }

  lemma OlderWhileWriting(a: Abs, e: Event, a': Abs, older: OpId)
    requires AbsMove(a, e, a') && e.Write? && Kept(a, older) && a.active !! a.committed
    ensures e.id !in a'.committed && Kept(a', older)
  {
  }

  lemma OlderStaysAhead(a: Abs, e: Event, a': Abs, older: OpId, newer: OpId)
    requires AbsMove(a, e, a') && newer in a.begun
    requires newer in a.active || newer in a.ended ==> Kept(a, older)
    requires newer in a.committed ==> older in a.committed
    ensures newer in a'.active || newer in a'.ended ==> Kept(a', older)
    ensures newer in a'.committed ==> older in a'.committed
  {
  }

  /** From the write of the header to the end of the commit, every operation that ended since the last
      crash is committed, and the recoverable blocks are the cached ones. */
  lemma QuietMeansCommitted(g: Geometry, d: Disk, es: seq<Event>, i: int, id: OpId)
    requires Formatted(g, d) && Run(g, d, es).At? && EndedAt(es, i, id)
    requires Run(g, d, es).c.s.phase.Installing? || Run(g, d, es).c.s.phase.Finishing?
    ensures id in Run(g, d, es).c.a.committed
    ensures Recovered(g, Run(g, d, es).c.s.disk) == HomeOf(g, Run(g, d, es).c.s.cache)
  {
    RunInv(g, d, es);
    EndedIsKept(g, d, es, i, id);
    hide Run, Recovered, HomeOf;
  }

  /** Recovery that runs to its end leaves the recovered blocks at home, with an empty header. */
  lemma {:induction false} RecoveryCompletes(g: Geometry, s: State, n: nat)
    requires Inv(g, s) && s.phase.Replaying? && n == |s.lh| - s.phase.tail
    ensures var s' := Ticks(g, s, n + 1);
            && Inv(g, s') && s'.phase.Running? && s'.disk[g.start][0] == 0
            && HomeOf(g, s'.disk) == HomeOf(g, s'.cache) == Recovered(g, s.disk)
    decreases n
  {
    hide Inv, Recovered, HomeOf;
    if n == 0 {
      ClearTick(g, s);
      assert Ticks(g, s, 1) == Ticks(g, TickStep(g, s), 0);
    } else {
      ReplayTick(g, s);
      RecoveryCompletes(g, TickStep(g, s), n - 1);
    }
  }

  ghost function Ticks(g: Geometry, s: State, n: nat): State
    requires Inv(g, s)
    decreases n
  {
    if n == 0 || s.phase.Running? then s
    else
      AnyTick(g, s);
      Ticks(g, TickStep(g, s), n - 1)
  }

  lemma AnyTick(g: Geometry, s: State)
    requires Inv(g, s) && !s.phase.Running?
    ensures Inv(g, TickStep(g, s))
  {
    match s.phase
    case Logging(t) => if t < |s.lh| { LoggingTick(g, s); } else { CommitTick(g, s); }
    case Installing(t) => if t < |s.lh| { InstallTick(g, s); } else { ClearTick(g, s); }
    case Replaying(t) => if t < |s.lh| { ReplayTick(g, s); } else { ClearTick(g, s); }
    case Finishing =>
    case Rebooted =>
  }

  // ---- Log reservation ----------------------------------------------------------------

  /** Log slots that running operations may still claim. */
  ghost function Unused(ids: set<OpId>, used: map<OpId, nat>): int
    requires ids <= used.Keys
    decreases |ids|
  {
    if ids == {} then 0 else
      var id :| id in ids;
      (MAXOPBLOCKS - used[id]) + Unused(ids - {id}, used)
  }

  lemma {:induction false} UnusedRemove(ids: set<OpId>, used: map<OpId, nat>, id: OpId)
    requires ids <= used.Keys && id in ids
    ensures Unused(ids, used) == (MAXOPBLOCKS - used[id]) + Unused(ids - {id}, used)
    decreases |ids|
  {
    var x :| x in ids && Unused(ids, used) == (MAXOPBLOCKS - used[x]) + Unused(ids - {x}, used);
    if x != id {
      UnusedRemove(ids - {x}, used, id);
      UnusedRemove(ids - {id}, used, x);
      assert ids - {x} - {id} == ids - {id} - {x};
    }
  }

  lemma {:induction false} UnusedFrame(ids: set<OpId>, used: map<OpId, nat>, used': map<OpId, nat>)
    requires ids <= used.Keys && ids <= used'.Keys
    requires forall id :: id in ids ==> used[id] == used'[id]
    ensures Unused(ids, used) == Unused(ids, used')
    decreases |ids|
  {
    if ids != {} {
      var id :| id in ids;
      UnusedRemove(ids, used, id);
      UnusedRemove(ids, used', id);
      UnusedFrame(ids - {id}, used, used');
    }
  }

  lemma {:induction false} UnusedBound(ids: set<OpId>, used: map<OpId, nat>)
    requires ids <= used.Keys
    requires forall id :: id in ids ==> used[id] <= MAXOPBLOCKS
    ensures 0 <= Unused(ids, used) <= |ids| * MAXOPBLOCKS
    decreases |ids|
  {
    if ids != {} {
      var id :| id in ids;
      UnusedRemove(ids, used, id);
      UnusedBound(ids - {id}, used);
    }
  }

  /** No running operation has put more than MAXOPBLOCKS new blocks in the log, at any point of the run. */
  ghost predicate WithinBudget(g: Geometry, d: Disk, es: seq<Event>)
    requires Formatted(g, d) && Run(g, d, es).At?
    decreases |es|
  {
    && (es != [] ==> WithinBudget(g, d, es[..|es| - 1]))
    && var a := Run(g, d, es).c.a;
       forall id :: id in a.active && id in a.used ==> a.used[id] <= MAXOPBLOCKS
  }

  ghost predicate Reserved(c: Config) {
    && c.a.active <= c.a.used.Keys
    && |c.s.lh| + Unused(c.a.active, c.a.used) <= LOGSIZE
  }

  /** Blocks logged plus slots still reserved never exceed the log, over every run within budget. */
  lemma {:induction false} ReservationHolds(g: Geometry, d: Disk, es: seq<Event>)
    requires Formatted(g, d) && Run(g, d, es).At? && WithinBudget(g, d, es)
    ensures Reserved(Run(g, d, es).c)
    decreases |es|
  {
    if es != [] {
      ReservationHolds(g, d, es[..|es| - 1]);
      RunInv(g, d, es[..|es| - 1]);
      hide Inv, Rel, Step, AbsStep, Enabled;
      ReservationStep(g, Run(g, d, es[..|es| - 1]).c, es[|es| - 1]);
    }
  }

  lemma ReservationStep(g: Geometry, c: Config, e: Event)
    requires Inv(g, c.s) && Rel(g, c) && Enabled(g, c, e) && Reserved(c)
    requires forall id :: id in c.a.active ==> c.a.used[id] <= MAXOPBLOCKS
    ensures Reserved(Next(g, c, e))
  {
    hide Inv, Rel, Reserved, Enabled, Step, AbsStep;
    match e {
      case Begin(id) => BeginReserves(g, c, id);
      case Write(id, b, data) => WriteReserves(g, c, id, b, data);
      case End(id) => EndReserves(g, c, id);
      case Tick => TickReserves(g, c);
      case Crash => CrashReserves(g, c);
    }
  }

  lemma CrashReserves(g: Geometry, c: Config)
    requires Reserved(c) && Enabled(g, c, Crash)
    ensures Reserved(Next(g, c, Crash))
  {
  }

  lemma EndReserves(g: Geometry, c: Config, id: OpId)
    requires Inv(g, c.s) && Rel(g, c) && Enabled(g, c, End(id)) && Reserved(c)
    requires forall i :: i in c.a.active ==> c.a.used[i] <= MAXOPBLOCKS
    ensures Reserved(Next(g, c, End(id)))
  {
    hide HeaderOk, Recovered, Clean, SlotsFilled, HomeOf, InRange;
    UnusedRemove(c.a.active, c.a.used, id);
  }

  lemma TickReserves(g: Geometry, c: Config)
    requires Inv(g, c.s) && Rel(g, c) && Enabled(g, c, Tick) && Reserved(c)
    ensures Reserved(Next(g, c, Tick))
  {
    hide HeaderOk, Recovered, Clean, SlotsFilled, HomeOf, InRange;
    assert c.s.outstanding == 0 && c.a.active == {};
  }

  lemma BeginReserves(g: Geometry, c: Config, id: OpId)
    requires Inv(g, c.s) && Rel(g, c) && Enabled(g, c, Begin(id)) && Reserved(c)
    requires forall i :: i in c.a.active ==> c.a.used[i] <= MAXOPBLOCKS
    ensures Reserved(Next(g, c, Begin(id)))
  {
    hide HeaderOk, Recovered, Clean, SlotsFilled, HomeOf, InRange;
    var c' := Next(g, c, Begin(id));
    UnusedBound(c.a.active, c.a.used);
    UnusedRemove(c'.a.active, c'.a.used, id);
    assert c'.a.active - {id} == c.a.active;
    UnusedFrame(c.a.active, c.a.used, c'.a.used);
  }

  lemma WriteReserves(g: Geometry, c: Config, id: OpId, b: nat, data: Sector)
    requires Inv(g, c.s) && Rel(g, c) && Enabled(g, c, Write(id, b, data)) && Reserved(c)
    requires forall i :: i in c.a.active ==> c.a.used[i] <= MAXOPBLOCKS
    ensures Reserved(Next(g, c, Write(id, b, data)))
  {
    hide HeaderOk, Recovered, Clean, SlotsFilled, HomeOf, InRange;
    var c' := Next(g, c, Write(id, b, data));
    UnusedRemove(c.a.active, c.a.used, id);
    UnusedRemove(c'.a.active, c'.a.used, id);
    UnusedFrame(c.a.active - {id}, c.a.used, c'.a.used);
  }

  /** log_write cannot panic for an operation with budget left, if the log has LOGSIZE + 1 blocks or more. */
  lemma LogWriteSafe(g: Geometry, d: Disk, es: seq<Event>, id: OpId, b: nat, data: Sector)
    requires Formatted(g, d) && Run(g, d, es).At? && WithinBudget(g, d, es)
    requires g.nlog >= LOGSIZE + 1
    requires id in Run(g, d, es).c.a.active && IsHome(g, Run(g, d, es).c.s.disk, b)
    requires id in Run(g, d, es).c.a.used && Run(g, d, es).c.a.used[id] < MAXOPBLOCKS
    ensures Enabled(g, Run(g, d, es).c, Write(id, b, data))
  {
    ReservationHolds(g, d, es);
    RunInv(g, d, es);
    hide Run, Recovered, HeaderOk, WithinBudget;
    var c := Run(g, d, es).c;
    UnusedRemove(c.a.active, c.a.used, id);
    UnusedBound(c.a.active - {id}, c.a.used);
  }

  // ---- a commit that is left alone ends ---------------------------------------------------------------

  lemma TickEnabled(g: Geometry, c: Config)
    requires Inv(g, c.s) && !c.s.phase.Running?
    ensures Enabled(g, c, Tick)
  {
    match c.s.phase
    case Logging(t) =>
    case Installing(t) =>
    case Replaying(t) =>
    case Finishing =>
    case Rebooted =>
  }

  /** From write_log on, ticks alone commit what has ended. */
  lemma {:induction false} TicksCommit(g: Geometry, d: Disk, es: seq<Event>, k: nat) returns (more: seq<Event>)
    requires Formatted(g, d) && Run(g, d, es).At?
    requires var s := Run(g, d, es).c.s; s.phase.Logging? && s.phase.tail + k == |s.lh|
    ensures Run(g, d, es + more).At? && forall i :: 0 <= i < |more| ==> more[i] == Tick
    ensures Run(g, d, es + more).c.a.committed == Run(g, d, es).c.a.committed + Run(g, d, es).c.a.ended
    decreases k
  {
    var c := Run(g, d, es).c;
    RunInv(g, d, es);
    TickEnabled(g, c);
    assert (es + [Tick])[..|es|] == es;
    assert Run(g, d, es + [Tick]) == At(Next(g, c, Tick));
    if k == 0 {
      more := [Tick];
    } else {
      hide Inv, Rel, HeaderOk, Recovered, HomeOf;
      var rest := TicksCommit(g, d, es + [Tick], k - 1);
      more := [Tick] + rest;
      assert es + [Tick] + rest == es + more;
    }
  }

  // ---- mkfs makes the log one block too short ------------------------------------------

  /** log_write never panics for size while the calling operation has budget left. */
  ghost predicate NeverPanics(g: Geometry, d: Disk)
    requires Formatted(g, d)
  {
    forall es, id, b, data ::
      (&& Run(g, d, es).At? && WithinBudget(g, d, es)
       && var c := Run(g, d, es).c;
          id in c.a.active && id in c.a.used && c.a.used[id] < MAXOPBLOCKS && IsHome(g, c.s.disk, b))
      ==> Enabled(g, Run(g, d, es).c, Write(id, b, data))
  }

  function Share(k: nat, id: nat): nat {
    if k <= id * MAXOPBLOCKS then 0
    else if k >= (id + 1) * MAXOPBLOCKS then MAXOPBLOCKS
    else k - id * MAXOPBLOCKS
  }

  ghost predicate Filled(c: Config, base: nat, k: nat) {
    && c.s.phase.Running? && |c.s.lh| == k
    && (forall i :: 0 <= i < k ==> c.s.lh[i] == base + i)
    && c.a.active == {0, 1, 2} && c.a.active <= c.a.used.Keys
    && forall id :: id in c.a.active ==> c.a.used[id] == Share(k, id)
  }

  /** A run within budget, extended by one possible event that overdraws nobody. */
  lemma Extend(g: Geometry, d: Disk, es: seq<Event>, e: Event)
    requires Formatted(g, d) && Run(g, d, es).At? && WithinBudget(g, d, es) && Enabled(g, Run(g, d, es).c, e)
    requires var a := AbsStep(Run(g, d, es).c, e);
             forall id :: id in a.active && id in a.used ==> a.used[id] <= MAXOPBLOCKS
    ensures Run(g, d, es + [e]) == At(Next(g, Run(g, d, es).c, e)) && WithinBudget(g, d, es + [e])
  {
  }

  /** The operations `ids` have begun, and nothing else has happened since boot. */
  ghost predicate Begun(g: Geometry, d: Disk, es: seq<Event>, ids: set<OpId>)
    requires Formatted(g, d)
  {
    && Run(g, d, es).At? && WithinBudget(g, d, es)
    && var c := Run(g, d, es).c;
       && |c.s.disk| == |d| && c.s.phase.Running? && c.s.lh == [] && c.s.outstanding == |ids|
       && c.a.active == c.a.begun == c.a.used.Keys == ids
       && forall id :: id in c.a.used ==> c.a.used[id] == 0
  }

  lemma FillBoot(g: Geometry, d: Disk) returns (es: seq<Event>)
    requires Formatted(g, d)
    ensures Begun(g, d, es, {}) && es == [Tick, Tick]
  {
    hide HomeOf, Recovered, IsHome;
    es := FirstTick(g, d);
    Extend(g, d, es, Tick);
    es := es + [Tick];
  }

  /** Recovery has read an empty header. */
  lemma FirstTick(g: Geometry, d: Disk) returns (es: seq<Event>)
    requires Formatted(g, d)
    ensures Run(g, d, es).At? && WithinBudget(g, d, es) && es == [Tick]
    ensures var c := Run(g, d, es).c; c.s == State(d, d, [], 0, Replaying(0)) && c.a == Boot(g, d).a
  {
    hide HomeOf, Recovered, IsHome;
    es := [];
    assert Run(g, d, es) == At(Boot(g, d)) && WithinBudget(g, d, es);
    assert Header(g, d) == [];
    Extend(g, d, es, Tick);
    es := es + [Tick];
  }

  lemma FillBegin(g: Geometry, d: Disk, es: seq<Event>, ids: set<OpId>, id: OpId) returns (es': seq<Event>)
    requires Formatted(g, d) && Begun(g, d, es, ids) && |ids| < 3 && id !in ids
    ensures Begun(g, d, es', ids + {id}) && es' == es + [Begin(id)]
  {
    Extend(g, d, es, Begin(id));
    es' := es + [Begin(id)];
    assert |ids + {id}| == |ids| + 1;
  }

  lemma FillStart(g: Geometry, d: Disk, base: nat) returns (es: seq<Event>)
    requires Formatted(g, d)
    ensures FilledRun(g, d, es, base, 0)
  {
    hide *;
    var es0 := FillBoot(g, d);
    var es1 := FillBegin(g, d, es0, {}, 0);
    assert {} + {0} == {0};
    var es2 := FillBegin(g, d, es1, {0}, 1);
    assert {0} + {1} == {0, 1};
    es := FillBegin(g, d, es2, {0, 1}, 2);
    assert {0, 1} + {2} == {0, 1, 2};
    BegunIsFilled(g, d, es, base);
  }

  lemma BegunIsFilled(g: Geometry, d: Disk, es: seq<Event>, base: nat)
    requires Formatted(g, d) && Begun(g, d, es, {0, 1, 2})
    ensures FilledRun(g, d, es, base, 0)
  {
  }

  lemma FilledNext(g: Geometry, d: Disk, es: seq<Event>, base: nat, k: nat, data: Sector)
    requires Formatted(g, d) && g.start + g.nlog <= base && base + k < |d| && k < Capacity(g)
    requires FilledRun(g, d, es, base, k)
    ensures FilledRun(g, d, es + [Write(k / MAXOPBLOCKS, base + k, data)], base, k + 1)
  {
    RunInv(g, d, es);
    FillStep(g, Run(g, d, es).c, base, k, data);
    hide Run, Inv, Rel;
    Extend(g, d, es, Write(k / MAXOPBLOCKS, base + k, data));
  }

  lemma FillStep(g: Geometry, c: Config, base: nat, k: nat, data: Sector)
    requires Inv(g, c.s) && Rel(g, c) && Filled(c, base, k) && k < LOGSIZE && k < Capacity(g)
    requires g.start + g.nlog <= base && base + k < |c.s.disk|
    ensures var e := Write(k / MAXOPBLOCKS, base + k, data);
            Enabled(g, c, e) && Filled(Next(g, c, e), base, k + 1) && |Next(g, c, e).s.disk| == |c.s.disk|
  {
    hide HeaderOk, Recovered, Rel;
  }

  ghost predicate FilledRun(g: Geometry, d: Disk, es: seq<Event>, base: nat, k: nat)
    requires Formatted(g, d)
  {
    && Run(g, d, es).At? && WithinBudget(g, d, es)
    && |Run(g, d, es).c.s.disk| == |d| && Filled(Run(g, d, es).c, base, k)
  }

  /** Some run logs k distinct blocks, ten per operation. */
  lemma {:induction false} FillReaches(g: Geometry, d: Disk, base: nat, k: nat, data: Sector) returns (es: seq<Event>)
    requires Formatted(g, d) && g.start + g.nlog <= base && base + k <= |d| && k <= Capacity(g)
    ensures FilledRun(g, d, es, base, k)
  {
    hide Run, FilledRun;
    if k == 0 {
      es := FillStart(g, d, base);
    } else {
      var es0 := FillReaches(g, d, base, k - 1, data);
      FilledNext(g, d, es0, base, k - 1, data);
      es := es0 + [Write((k - 1) / MAXOPBLOCKS, base + k - 1, data)];
    }
  }

  /** The exact condition: budgeted operations never panic in log_write if and only if the
      log has LOGSIZE + 1 blocks.  mkfs gives it LOGSIZE. */
  lemma NeverPanicsExactly(g: Geometry, d: Disk)
    requires Formatted(g, d) && g.start + g.nlog + LOGSIZE <= |d|
    ensures NeverPanics(g, d) <==> g.nlog >= LOGSIZE + 1
  {
    if g.nlog >= LOGSIZE + 1 {
      forall es, id, b, data |
        && Run(g, d, es).At? && WithinBudget(g, d, es)
        && var c := Run(g, d, es).c;
           id in c.a.active && id in c.a.used && c.a.used[id] < MAXOPBLOCKS && IsHome(g, c.s.disk, b)
        ensures Enabled(g, Run(g, d, es).c, Write(id, b, data))
      {
        LogWriteSafe(g, d, es, id, b, data);
      }
    } else {
      var base, k, data := g.start + g.nlog, g.nlog - 1, d[0];
      var es := FillReaches(g, d, base, k, data);
      var c := Run(g, d, es).c;
      assert 2 in c.a.active && c.a.used[2] < MAXOPBLOCKS && IsHome(g, c.s.disk, base);
      assert !Enabled(g, c, Write(2, base, data));
    }
  }
}
