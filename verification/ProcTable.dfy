/**
  The process table: allocproc, fork's last steps, exit, wait, sleep and wakeup1.  A Table is
  what ptable.lock protects; every event is one critical section, or one store fork makes to a
  slot only it can see.  Slots are numbered; `exited` and `reaped` record the pids of the
  processes that have exited and, in order, those that wait has returned.
 */
module ProcTable {
  import opened Wrappers

  datatype ProcState = Unused | Embryo | Sleeping | Runnable | Running | Zombie
  datatype Chan = NoChan | OfProc(slot: nat) | Other(id: nat)
  datatype Proc = Proc(state: ProcState, pid: nat, parent: Option<nat>, chan: Chan, killed: bool)

  datatype Table = Table(procs: seq<Proc>, nextpid: nat, exited: set<nat>, reaped: seq<nat>)

  datatype WaitResult = Reaped(pid: nat) | NoChild | Slept

  datatype Event =
    | Alloc                         // allocproc
    | Undo(slot: nat)               // kalloc or copyuvm failed: the embryo is given up
    | Adopt(slot: nat, owner: nat)  // fork names itself the parent
    | Publish(slot: nat)            // fork makes the child runnable
    | Exit(slot: nat)
    | Wait(slot: nat)               // one turn of wait's loop, with the sleep that may end it
    | Kill(pid: nat)
    | Pick(slot: nat)               // the scheduler runs a process; a sleeper tidies up
    | Yield(slot: nat)
    | SleepOn(slot: nat, id: nat)   // sleep on a channel that is not a process
    | WakeOn(id: nat)

  // ---- wakeup1 and the scans ----------------------------------------------------------------------

  function Wake(p: Proc, c: Chan): Proc {
    if p.state.Sleeping? && p.chan == c then p.(state := Runnable) else p
  }

  function WakeAll(ps: seq<Proc>, c: Chan): (r: seq<Proc>)
    ensures |r| == |ps|
  {
    seq(|ps|, i requires 0 <= i < |ps| => Wake(ps[i], c))
  }

  function ChanOf(parent: Option<nat>): Chan {
    if parent.Some? then OfProc(parent.value) else NoChan
  }

  predicate ZombieChild(p: Proc, cur: nat) { p.parent == Some(cur) && p.state.Zombie? }

  predicate HasZombieChild(ps: seq<Proc>, cur: nat) {
    exists i :: 0 <= i < |ps| && ZombieChild(ps[i], cur)
  }

  predicate HasChild(ps: seq<Proc>, cur: nat) {
    exists i :: 0 <= i < |ps| && ps[i].parent == Some(cur)
  }

  function Reparent(p: Proc, cur: nat, init: nat): Proc {
    if p.parent == Some(cur) then p.(parent := Some(init)) else p
  }

  /** The least slot at or after `from` for which the scan stops, or the length. */
  function FirstUnused(ps: seq<Proc>, from: nat): nat
    decreases |ps| - from
  {
    if from >= |ps| || ps[from].state.Unused? then from else FirstUnused(ps, from + 1)
  }

  function FirstZombie(ps: seq<Proc>, cur: nat, from: nat): nat
    decreases |ps| - from
  {
    if from >= |ps| || ZombieChild(ps[from], cur) then from else FirstZombie(ps, cur, from + 1)
  }

  function FirstPid(ps: seq<Proc>, pid: nat, from: nat): nat
    decreases |ps| - from
  {
    if from >= |ps| || ps[from].pid == pid then from else FirstPid(ps, pid, from + 1)
  }

  // ---- what each critical section does -----------------------------------------------------------

  function AllocSpec(t: Table): Table {
    var i := FirstUnused(t.procs, 0);
    if i >= |t.procs| then t
    else t.(procs := t.procs[i := t.procs[i].(state := Embryo, pid := t.nextpid)], nextpid := t.nextpid + 1)
  }

  /** Slot i of the table after the exit of cur. */
  function ExitOne(ps: seq<Proc>, cur: nat, init: nat, i: nat): Proc
    requires i < |ps| && cur < |ps|
  {
    var p := Wake(ps[i], ChanOf(ps[cur].parent));
    var q := if HasZombieChild(ps, cur) then Wake(p, OfProc(init)) else p;
    var r := Reparent(q, cur, init);
    if i == cur then r.(state := Zombie) else r
  }

  function ExitSpec(t: Table, cur: nat, init: nat): Table
    requires cur < |t.procs|
  {
    t.(procs := seq(|t.procs|, i requires 0 <= i < |t.procs| => ExitOne(t.procs, cur, init, i)),
       exited := t.exited + {t.procs[cur].pid})
  }

  function Freed(p: Proc): Proc { p.(state := Unused, pid := 0, parent := None, killed := false) }

  function WaitSpec(t: Table, cur: nat): (Table, WaitResult)
    requires cur < |t.procs|
  {
    var z := FirstZombie(t.procs, cur, 0);
    if z < |t.procs| then
      (t.(procs := t.procs[z := Freed(t.procs[z])],
          reaped := t.reaped + [t.procs[z].pid]),
       Reaped(t.procs[z].pid))
    else if !HasChild(t.procs, cur) || t.procs[cur].killed then (t, NoChild)
    else (t.(procs := t.procs[cur := t.procs[cur].(chan := OfProc(cur), state := Sleeping)]), Slept)
  }

  /** What a turn of wait may do and answer, said of the slots before and after. */
  ghost predicate WaitTells(ps: seq<Proc>, cur: nat, qs: seq<Proc>, r: WaitResult)
    requires cur < |ps|
  {
    match r
    case Reaped(pid) =>
      exists z :: 0 <= z < |ps| && ps[z].parent == Some(cur) && ps[z].state == Zombie && ps[z].pid == pid
                  && (forall i :: 0 <= i < z && ps[i].parent == Some(cur) ==> ps[i].state != Zombie)
                  && qs == ps[z := Proc(Unused, 0, None, ps[z].chan, false)]
    case NoChild =>
      && qs == ps
      && (forall i :: 0 <= i < |ps| && ps[i].parent == Some(cur) ==> ps[cur].killed && ps[i].state != Zombie)
    case Slept =>
      && (forall i :: 0 <= i < |ps| && ps[i].parent == Some(cur) ==> ps[i].state != Zombie)
      && (exists i :: 0 <= i < |ps| && ps[i].parent == Some(cur)) && !ps[cur].killed
      && qs == ps[cur := ps[cur].(chan := OfProc(cur), state := Sleeping)]
  }

  /** Slot i after the exit of cur: every field but parent and state is kept, and those two only as said. */
  ghost predicate ExitTells(ps: seq<Proc>, cur: nat, init: nat, i: nat, q: Proc)
    requires i < |ps| && cur < |ps|
  {
    var p := ps[i];
    var orphanZombie := exists k :: 0 <= k < |ps| && ps[k].parent == Some(cur) && ps[k].state == Zombie;
    var called := (ps[cur].parent.Some? && p.chan == OfProc(ps[cur].parent.value))
                  || (ps[cur].parent.None? && p.chan == NoChan)
                  || (orphanZombie && p.chan == OfProc(init));
    && q.pid == p.pid && q.chan == p.chan && q.killed == p.killed
    && q.parent == (if p.parent == Some(cur) then Some(init) else p.parent)
    && q.state == (if i == cur then Zombie else if p.state == Sleeping && called then Runnable else p.state)
  }

  function KillSpec(t: Table, pid: nat): Table {
    var i := FirstPid(t.procs, pid, 0);
    if i >= |t.procs| then t
    else
      var p := t.procs[i];
      t.(procs := t.procs[i := p.(killed := true, state := if p.state.Sleeping? then Runnable else p.state)])
  }

  function SetState(t: Table, i: nat, s: ProcState): Table
    requires i < |t.procs|
  {
    t.(procs := t.procs[i := t.procs[i].(state := s)])
  }

  /** When an event can happen: the calling process runs, init does not exit, fork fills an embryo. */
  predicate Enabled(t: Table, e: Event, init: nat) {
    match e
    case Alloc => true
    case Undo(i) => i < |t.procs| && t.procs[i].state.Embryo? && t.procs[i].parent.None?
    case Adopt(i, o) =>
      i < |t.procs| && o < |t.procs| && t.procs[i].state.Embryo? && t.procs[o].state.Running?
    case Publish(i) => i < |t.procs| && t.procs[i].state.Embryo? && t.procs[i].parent.Some?
    case Exit(i) => i < |t.procs| && t.procs[i].state.Running? && i != init
    case Wait(i) => i < |t.procs| && t.procs[i].state.Running?
    case Kill(pid) => true
    case Pick(i) => i < |t.procs| && t.procs[i].state.Runnable?
    case Yield(i) => i < |t.procs| && t.procs[i].state.Running?
    case SleepOn(i, _) => i < |t.procs| && t.procs[i].state.Running?
    case WakeOn(_) => true
  }

  function Step(t: Table, e: Event, init: nat): Table {
    if !Enabled(t, e, init) then t else
    match e
    case Alloc => AllocSpec(t)
    case Undo(i) => SetState(t, i, Unused)
    case Adopt(i, o) => t.(procs := t.procs[i := t.procs[i].(parent := Some(o))])
    case Publish(i) => SetState(t, i, Runnable)
    case Exit(i) => ExitSpec(t, i, init)
    case Wait(i) => WaitSpec(t, i).0
    case Kill(pid) => KillSpec(t, pid)
    case Pick(i) => t.(procs := t.procs[i := t.procs[i].(state := Running, chan := NoChan)])
    case Yield(i) => SetState(t, i, Runnable)
    case SleepOn(i, id) => t.(procs := t.procs[i := t.procs[i].(state := Sleeping, chan := Other(id))])
    case WakeOn(id) => t.(procs := WakeAll(t.procs, Other(id)))
  }

  // ---- the invariant ----------------------------------------------------------------------------------

  predicate Alive(s: ProcState) { s.Sleeping? || s.Runnable? || s.Running? }

  predicate InitAlive(t: Table, init: nat) { init < |t.procs| && Alive(t.procs[init].state) }

  /** A parent pointer is null or names a process that has neither gone nor exited. */
  predicate ParentOk(ps: seq<Proc>, p: Proc) {
    p.parent.Some? ==> p.parent.value < |ps| && Alive(ps[p.parent.value].state)
  }

  /** Who has a parent: nobody that runs or has exited, except init, is ever without one. */
  predicate FamilyOk(p: Proc, i: nat, init: nat) {
    && (p.state.Unused? || i == init ==> p.parent.None?)
    && ((Alive(p.state) || p.state.Zombie?) && i != init ==> p.parent.Some?)
    && p.parent != Some(i)
  }

  predicate TreeOk(t: Table, init: nat) {
    && InitAlive(t, init)
    && (forall i :: 0 <= i < |t.procs| ==> ParentOk(t.procs, t.procs[i]))
    && (forall i :: 0 <= i < |t.procs| ==> FamilyOk(t.procs[i], i, init))
  }

  predicate Live(p: Proc) { !p.state.Unused? }

  predicate PidsOk(t: Table) {
    && (forall i :: 0 <= i < |t.procs| && Live(t.procs[i]) ==> 0 < t.procs[i].pid < t.nextpid)
    && (forall i, j :: 0 <= i < j < |t.procs| && Live(t.procs[i]) && Live(t.procs[j]) ==>
          t.procs[i].pid != t.procs[j].pid)
    && 0 < t.nextpid
  }

  predicate WaitsInVain(ps: seq<Proc>, i: nat) {
    i < |ps| && ps[i].state.Sleeping? && ps[i].chan == OfProc(i) && HasZombieChild(ps, i)
  }

  /** Nobody sleeps in wait while one of their children is a zombie. */
  predicate NoneWaitsInVain(t: Table) { forall i: nat :: i < |t.procs| ==> !WaitsInVain(t.procs, i) }

  predicate ZombiePid(ps: seq<Proc>, x: nat) {
    exists i :: 0 <= i < |ps| && ps[i].state.Zombie? && ps[i].pid == x
  }

  predicate NoDup(s: seq<nat>) { forall i, j :: 0 <= i < j < |s| ==> s[i] != s[j] }

  /** Every process that exited is a zombie or has been reaped, and was reaped only once. */
  predicate Accounted(t: Table) {
    && NoDup(t.reaped)
    && (forall x :: x in t.reaped ==> x < t.nextpid && x in t.exited)
    && (forall i :: 0 <= i < |t.procs| && Live(t.procs[i]) ==> t.procs[i].pid !in t.reaped)
    && (forall i :: 0 <= i < |t.procs| && t.procs[i].state.Zombie? ==> t.procs[i].pid in t.exited)
    && (forall x :: x in t.exited ==> x in t.reaped || ZombiePid(t.procs, x))
  }

  predicate Inv(t: Table, init: nat) {
    TreeOk(t, init) && PidsOk(t) && NoneWaitsInVain(t) && Accounted(t)
  }

  // ---- every critical section keeps it --------------------------------------------------------------

  lemma FirstUnusedIs(ps: seq<Proc>, from: nat)
    requires from <= |ps|
    ensures from <= FirstUnused(ps, from) <= |ps|
    ensures FirstUnused(ps, from) < |ps| ==> ps[FirstUnused(ps, from)].state.Unused?
    ensures forall i :: from <= i < FirstUnused(ps, from) ==> !ps[i].state.Unused?
    decreases |ps| - from
  {
  }

  lemma FirstZombieIs(ps: seq<Proc>, cur: nat, from: nat)
    requires from <= |ps|
    ensures from <= FirstZombie(ps, cur, from) <= |ps|
    ensures FirstZombie(ps, cur, from) < |ps| ==> ZombieChild(ps[FirstZombie(ps, cur, from)], cur)
    ensures forall i :: from <= i < FirstZombie(ps, cur, from) ==> !ZombieChild(ps[i], cur)
    decreases |ps| - from
  {
  }

  lemma FirstPidIs(ps: seq<Proc>, pid: nat, from: nat)
    requires from <= |ps|
    ensures from <= FirstPid(ps, pid, from) <= |ps|
    ensures FirstPid(ps, pid, from) < |ps| ==> ps[FirstPid(ps, pid, from)].pid == pid
    ensures forall i :: from <= i < FirstPid(ps, pid, from) ==> ps[i].pid != pid
    decreases |ps| - from
  {
  }

  /** A change of one slot that neither ends a life, nor makes a zombie, nor sends anyone to sleep. */
  predicate Mild(p: Proc, q: Proc) {
    && q.pid == p.pid && q.parent == p.parent
    && (Alive(p.state) <==> Alive(q.state)) && (p.state.Zombie? <==> q.state.Zombie?)
    && (p.state.Unused? <==> q.state.Unused?)
    && (q.state.Sleeping? && !q.chan.Other? ==> p.state.Sleeping? && p.chan == q.chan)
  }

  predicate MildAll(ps: seq<Proc>, qs: seq<Proc>) {
    |qs| == |ps| && forall i :: 0 <= i < |ps| ==> Mild(ps[i], qs[i])
  }

  lemma MildTree(t: Table, qs: seq<Proc>, init: nat)
    requires TreeOk(t, init) && MildAll(t.procs, qs)
    ensures TreeOk(t.(procs := qs), init)
  {
  }

  lemma MildWaits(t: Table, qs: seq<Proc>)
    requires NoneWaitsInVain(t) && MildAll(t.procs, qs)
    ensures NoneWaitsInVain(t.(procs := qs))
  {
    forall i: nat | i < |qs| ensures !WaitsInVain(qs, i) {
      assert !WaitsInVain(t.procs, i) && Mild(t.procs[i], qs[i]);
      if HasZombieChild(qs, i) {
        var z :| 0 <= z < |qs| && ZombieChild(qs[z], i);
        assert Mild(t.procs[z], qs[z]) && ZombieChild(t.procs[z], i);
      }
    }
  }

  lemma MildAccounts(t: Table, qs: seq<Proc>)
    requires PidsOk(t) && Accounted(t) && MildAll(t.procs, qs)
    ensures PidsOk(t.(procs := qs)) && Accounted(t.(procs := qs))
  {
  }

  lemma MildKeeps(t: Table, qs: seq<Proc>, init: nat)
    requires Inv(t, init) && MildAll(t.procs, qs)
    ensures Inv(t.(procs := qs), init)
  {
    MildTree(t, qs, init);
    MildWaits(t, qs);
    MildAccounts(t, qs);
  }

  /** One slot is replaced by a process that is no zombie and not asleep in vain. */
  lemma OneTree(t: Table, i: nat, q: Proc, init: nat)
    requires TreeOk(t, init) && i < |t.procs|
    requires (Alive(t.procs[i].state) ==> Alive(q.state)) && FamilyOk(q, i, init) && ParentOk(t.procs, q)
    ensures TreeOk(t.(procs := t.procs[i := q]), init)
  {
  }

  lemma OneWaits(t: Table, i: nat, q: Proc)
    requires NoneWaitsInVain(t) && i < |t.procs| && !q.state.Zombie?
    requires q.state.Sleeping? && q.chan == OfProc(i) ==> !HasZombieChild(t.procs, i)
    ensures NoneWaitsInVain(t.(procs := t.procs[i := q]))
  {
    var qs := t.procs[i := q];
    forall j: nat | j < |qs| ensures !WaitsInVain(qs, j) {
      assert !WaitsInVain(t.procs, j);
      if HasZombieChild(qs, j) {
        var z :| 0 <= z < |qs| && ZombieChild(qs[z], j);
        assert ZombieChild(t.procs[z], j);
      }
    }
  }

  lemma AllocKeeps(t: Table, init: nat)
    requires Inv(t, init)
    ensures Inv(AllocSpec(t), init)
  {
    var i := FirstUnused(t.procs, 0);
    FirstUnusedIs(t.procs, 0);
    if i < |t.procs| {
      var p := t.procs[i];
      var q := p.(state := Embryo, pid := t.nextpid);
      assert FamilyOk(p, i, init);
      OneTree(t, i, q, init);
      OneWaits(t, i, q);
      EmbryoAccounts(t, i, q);
    }
  }

  /** Slot i was or becomes unused or an embryo: no zombie comes or goes. */
  lemma EmbryoAccounts(t: Table, i: nat, q: Proc)
    requires PidsOk(t) && Accounted(t) && i < |t.procs|
    requires !t.procs[i].state.Zombie? && !q.state.Zombie?
    requires Live(q) ==> (q.pid == t.procs[i].pid && Live(t.procs[i])) || q.pid == t.nextpid
    ensures var t' := t.(procs := t.procs[i := q], nextpid := t.nextpid + 1); PidsOk(t') && Accounted(t')
    ensures var t' := t.(procs := t.procs[i := q]);
            (Live(q) ==> Live(t.procs[i]) && q.pid == t.procs[i].pid) ==> PidsOk(t') && Accounted(t')
  {
    var qs := t.procs[i := q];
    forall x | x in t.exited ensures x in t.reaped || ZombiePid(qs, x) {
      if x !in t.reaped {
        var z :| 0 <= z < |t.procs| && t.procs[z].state.Zombie? && t.procs[z].pid == x;
        assert qs[z] == t.procs[z];
      }
    }
  }

  lemma ForkKeeps(t: Table, e: Event, init: nat)
    requires Inv(t, init) && Enabled(t, e, init) && (e.Undo? || e.Adopt? || e.Publish?)
    ensures Inv(Step(t, e, init), init)
  {
    var p := t.procs[e.slot];
    var q := if e.Undo? then p.(state := Unused)
             else if e.Adopt? then p.(parent := Some(e.owner)) else p.(state := Runnable);
    assert FamilyOk(p, e.slot, init) && ParentOk(t.procs, p);
    OneTree(t, e.slot, q, init);
    OneWaits(t, e.slot, q);
    EmbryoAccounts(t, e.slot, q);
  }

  // exit

  lemma ExitOneIs(ps: seq<Proc>, cur: nat, init: nat, i: nat)
    requires i < |ps| && cur < |ps| && Alive(ps[cur].state)
    ensures var p, q := ps[i], ExitOne(ps, cur, init, i);
            && q.pid == p.pid && q.chan == p.chan
            && q.parent == (if p.parent == Some(cur) then Some(init) else p.parent)
            && (q.state.Zombie? <==> p.state.Zombie? || i == cur)
            && (q.state.Unused? <==> p.state.Unused?)
            && (Alive(q.state) <==> Alive(p.state) && i != cur)
            && (q.state.Sleeping? ==>
                  && p.state.Sleeping? && p.chan != ChanOf(ps[cur].parent)
                  && (HasZombieChild(ps, cur) ==> p.chan != OfProc(init)))
  {
  }

  /** The whole of exit, slot by slot; with ExitSpec's other fields nothing is left open. */
  lemma ExitExactly(t: Table, cur: nat, init: nat)
    requires cur < |t.procs|
    ensures var t' := ExitSpec(t, cur, init);
            && |t'.procs| == |t.procs| && t'.nextpid == t.nextpid && t'.reaped == t.reaped
            && t'.exited == t.exited + {t.procs[cur].pid}
            && (forall i: nat :: i < |t.procs| ==> ExitTells(t.procs, cur, init, i, t'.procs[i]))
  {
    var ps := t.procs;
    if HasZombieChild(ps, cur) {
      var k :| 0 <= k < |ps| && ZombieChild(ps[k], cur);
      assert ps[k].parent == Some(cur) && ps[k].state == Zombie;
    } else {
      assert forall k :: 0 <= k < |ps| ==> !ZombieChild(ps[k], cur);
    }
  }

  lemma ExitTree(t: Table, cur: nat, init: nat)
    requires TreeOk(t, init) && Enabled(t, Exit(cur), init)
    ensures TreeOk(ExitSpec(t, cur, init), init)
  {
    hide ExitOne;
    var t' := ExitSpec(t, cur, init);
    forall i: nat | i < |t.procs| ensures Alive(t'.procs[i].state) == (Alive(t.procs[i].state) && i != cur) {
      ExitOneIs(t.procs, cur, init, i);
    }
    forall i: nat | i < |t.procs| ensures ParentOk(t'.procs, t'.procs[i]) && FamilyOk(t'.procs[i], i, init) {
      assert ParentOk(t.procs, t.procs[i]) && FamilyOk(t.procs[i], i, init) && FamilyOk(t.procs[init], init, init);
      ExitOneIs(t.procs, cur, init, i);
    }
  }

  /** A zombie child after the exit: cur itself under its parent, or one that was there, or one init inherits. */
  lemma ExitWaits(t: Table, cur: nat, init: nat)
    requires TreeOk(t, init) && NoneWaitsInVain(t) && Enabled(t, Exit(cur), init)
    ensures NoneWaitsInVain(ExitSpec(t, cur, init))
  {
    hide ExitOne;
    var ps, qs := t.procs, ExitSpec(t, cur, init).procs;
    forall i: nat | i < |qs| ensures !WaitsInVain(qs, i) {
      assert !WaitsInVain(ps, i) && FamilyOk(ps[cur], cur, init);
      ExitOneIs(ps, cur, init, i);
      if HasZombieChild(qs, i) {
        var z :| 0 <= z < |qs| && ZombieChild(qs[z], i);
        ExitOneIs(ps, cur, init, z);
        assert z != cur && ps[z].parent == Some(i) ==> ZombieChild(ps[z], i);
        assert z != cur && ps[z].parent != Some(i) ==> i == init && ZombieChild(ps[z], cur);
      }
    }
  }

  lemma ExitAccounts(t: Table, cur: nat, init: nat)
    requires PidsOk(t) && Accounted(t) && Enabled(t, Exit(cur), init)
    ensures PidsOk(ExitSpec(t, cur, init)) && Accounted(ExitSpec(t, cur, init))
  {
    hide ExitOne;
    var ps, qs := t.procs, ExitSpec(t, cur, init).procs;
    forall i: nat | i < |qs| ensures qs[i].pid == ps[i].pid && Live(qs[i]) == Live(ps[i])
                                     && qs[i].state.Zombie? == (ps[i].state.Zombie? || i == cur) {
      ExitOneIs(ps, cur, init, i);
    }
    assert ZombiePid(qs, ps[cur].pid);
    forall x | x in t.exited ensures x in t.reaped || ZombiePid(qs, x) {
      if x !in t.reaped {
        var z :| 0 <= z < |ps| && ps[z].state.Zombie? && ps[z].pid == x;
        assert qs[z].state.Zombie? && qs[z].pid == x;
      }
    }
  }

  // wait

  lemma ReapAccounts(t: Table, z: nat)
    requires PidsOk(t) && Accounted(t) && z < |t.procs| && t.procs[z].state.Zombie?
    ensures var t' := t.(procs := t.procs[z := Freed(t.procs[z])], reaped := t.reaped + [t.procs[z].pid]);
            PidsOk(t') && Accounted(t')
  {
    var t' := t.(procs := t.procs[z := Freed(t.procs[z])], reaped := t.reaped + [t.procs[z].pid]);
    assert t.procs[z].pid in t'.reaped by { assert t'.reaped[|t.reaped|] == t.procs[z].pid; }
    forall x | x in t.exited ensures x in t'.reaped || ZombiePid(t'.procs, x) {
      if x !in t'.reaped {
        assert x !in t.reaped;
        var y :| 0 <= y < |t.procs| && t.procs[y].state.Zombie? && t.procs[y].pid == x;
        assert t'.procs[y] == t.procs[y];
      }
    }
  }

  /** The answer and the table of a turn of wait, without the function that computes them. */
  lemma WaitExactly(t: Table, cur: nat)
    requires cur < |t.procs|
    ensures var (t', r) := WaitSpec(t, cur);
            && WaitTells(t.procs, cur, t'.procs, r)
            && (r.Reaped? <==>
                  exists i :: 0 <= i < |t.procs| && t.procs[i].parent == Some(cur) && t.procs[i].state == Zombie)
            && (r.NoChild? <==> forall i :: 0 <= i < |t.procs| && t.procs[i].parent == Some(cur) ==>
                                              t.procs[cur].killed && t.procs[i].state != Zombie)
            && t'.nextpid == t.nextpid && t'.exited == t.exited
            && t'.reaped == (if r.Reaped? then t.reaped + [r.pid] else t.reaped)
  {
    var ps, z := t.procs, FirstZombie(t.procs, cur, 0);
    FirstZombieIs(ps, cur, 0);
    if z < |ps| {
      assert ZombieChild(ps[z], cur);
      assert forall i :: 0 <= i < z ==> !ZombieChild(ps[i], cur);
    } else {
      assert forall i :: 0 <= i < |ps| ==> !ZombieChild(ps[i], cur);
    }
  }

  lemma WaitKeeps(t: Table, cur: nat, init: nat)
    requires Inv(t, init) && Enabled(t, Wait(cur), init)
    ensures Inv(WaitSpec(t, cur).0, init)
  {
    var z := FirstZombie(t.procs, cur, 0);
    FirstZombieIs(t.procs, cur, 0);
    if z < |t.procs| {
      assert FamilyOk(t.procs[z], z, init);
      OneTree(t, z, Freed(t.procs[z]), init);
      OneWaits(t, z, Freed(t.procs[z]));
      ReapAccounts(t, z);
    } else if !(!HasChild(t.procs, cur) || t.procs[cur].killed) {
      var p := t.procs[cur];
      var q := p.(chan := OfProc(cur), state := Sleeping);
      assert FamilyOk(p, cur, init) && ParentOk(t.procs, p);
      OneTree(t, cur, q, init);
      OneWaits(t, cur, q);
      EmbryoAccounts(t, cur, q);
    }
  }

  lemma MildEvent(t: Table, e: Event, init: nat)
    requires Enabled(t, e, init) && (e.Kill? || e.Pick? || e.Yield? || e.SleepOn? || e.WakeOn?)
    ensures Step(t, e, init) == t.(procs := Step(t, e, init).procs) && MildAll(t.procs, Step(t, e, init).procs)
  {
  }

  lemma StepKeeps(t: Table, e: Event, init: nat)
    requires Inv(t, init)
    ensures Inv(Step(t, e, init), init)
  {
    hide TreeOk, PidsOk, NoneWaitsInVain, Accounted;
    if Enabled(t, e, init) {
      match e
      case Alloc => AllocKeeps(t, init);
      case Exit(i) =>
        ExitTree(t, i, init);
        ExitWaits(t, i, init);
        ExitAccounts(t, i, init);
      case Wait(i) => WaitKeeps(t, i, init);
      case Undo(_) => ForkKeeps(t, e, init);
      case Adopt(_, _) => ForkKeeps(t, e, init);
      case Publish(_) => ForkKeeps(t, e, init);
      case _ =>
        MildEvent(t, e, init);
        MildKeeps(t, Step(t, e, init).procs, init);
    }
  }

  // ---- whole runs ------------------------------------------------------------------------------------------

  /** After userinit: the first slot holds init, ready to run, and the rest are unused. */
  function Boot(n: nat): Table
    requires n > 0
  {
    Table(seq(n, i => if i == 0 then Proc(Runnable, 1, None, NoChan, false) else Proc(Unused, 0, None, NoChan, false)),
          2, {}, [])
  }

  function Run(t: Table, es: seq<Event>, init: nat): Table {
    if es == [] then t else Step(Run(t, es[..|es| - 1], init), es[|es| - 1], init)
  }

  lemma {:induction false} RunKeeps(t: Table, es: seq<Event>, init: nat)
    requires Inv(t, init)
    ensures Inv(Run(t, es, init), init)
  {
    if es != [] {
      RunKeeps(t, es[..|es| - 1], init);
      StepKeeps(Run(t, es[..|es| - 1], init), es[|es| - 1], init);
    }
  }

  /** From boot, whatever the processes and the scheduler do, the table stays a tree rooted at init. */
  lemma ProcessTree(n: nat, es: seq<Event>)
    requires n > 0
    ensures Inv(Run(Boot(n), es, 0), 0)
  {
    RunKeeps(Boot(n), es, 0);
  }
}
