/**
  Sleep locks over sleep and wakeup, as an interleaved step machine.  Every acquisition and
  release of a spinlock, every field update and every turn of wakeup's scan is a step of its
  own, for any number of processes.  Process i has pid i + 1; pid 0 is nobody.
 */
module SleepLock {

  datatype Holder = Nobody | Process(id: nat) | Kernel    // Kernel: anyone outside this protocol

  /** Where a process is; the comment says what it is about to do. */
  datatype Pc =
    | Idle        // call acquiresleep
    | Enter       // acquire the inner spinlock
    | Test        // test locked
    | WantTable   // in sleep: acquire ptable.lock
    | GotTable    // release the inner spinlock
    | Mark        // set the state to SLEEPING
    | Switch      // sched: the scheduler releases ptable.lock
    | Asleep      // nothing: the state is SLEEPING
    | Ready       // be picked by the scheduler, which then holds ptable.lock
    | Tidy        // clear chan and release ptable.lock
    | Again       // reacquire the inner spinlock
    | Taken       // release the inner spinlock and return from acquiresleep
    | Held        // call releasesleep
    | WantInner   // acquire the inner spinlock
    | Drop        // clear locked and pid
    | WantScan    // in wakeup: acquire ptable.lock
    | Scan(next: nat)   // wakeup1: look at process next, or release ptable.lock after the last
    | Leave       // release the inner spinlock and return from releasesleep

  datatype State = State(inner: Holder, table: Holder, locked: bool, pid: nat, pcs: seq<Pc>)

  datatype Event =
    | Move(id: nat)       // process id takes its next step
    | Kill(id: nat)       // kill wakes a sleeper, under ptable.lock
    | KernelTakes         // yield, exit, another wakeup, ... acquires ptable.lock
    | KernelReleases

  // ---- steps --------------------------------------------------------------------------------

  /** A process waits only for a spinlock, or asleep. */
  predicate CanMove(s: State, i: nat) {
    i < |s.pcs| &&
    match s.pcs[i]
    case Enter => s.inner.Nobody?
    case Again => s.inner.Nobody?
    case WantInner => s.inner.Nobody?
    case WantTable => s.table.Nobody?
    case WantScan => s.table.Nobody?
    case Ready => s.table.Nobody?
    case Asleep => false
    case _ => true
  }

  /** The program counter after the step. */
  function Next(pc: Pc, locked: bool, n: nat): Pc {
    match pc
    case Idle => Enter
    case Enter => Test
    case Test => if locked then WantTable else Taken
    case WantTable => GotTable
    case GotTable => Mark
    case Mark => Switch
    case Switch => Asleep
    case Asleep => Asleep
    case Ready => Tidy
    case Tidy => Again
    case Again => Test
    case Taken => Held
    case Held => WantInner
    case WantInner => Drop
    case Drop => WantScan
    case WantScan => Scan(0)
    case Scan(k) => if k < n then Scan(k + 1) else Leave
    case Leave => Idle
  }

  function InnerAfter(s: State, i: nat, pc: Pc): Holder {
    if pc.Enter? || pc.Again? || pc.WantInner? then Process(i)
    else if pc.GotTable? || pc.Taken? || pc.Leave? then Nobody
    else s.inner
  }

  function TableAfter(s: State, i: nat, pc: Pc): Holder {
    if pc.WantTable? || pc.WantScan? || pc.Ready? then Process(i)
    else if pc.Switch? || pc.Tidy? || (pc.Scan? && pc.next >= |s.pcs|) then Nobody
    else s.table
  }

  function Moved(s: State, i: nat): State
    requires i < |s.pcs|
  {
    var pc := s.pcs[i];
    State(InnerAfter(s, i, pc), TableAfter(s, i, pc),
          if pc.Test? then true else if pc.Drop? then false else s.locked,
          if pc.Test? && !s.locked then i + 1 else if pc.Drop? then 0 else s.pid,
          (if pc.Scan? then Woken(s.pcs, pc.next) else s.pcs)[i := Next(pc, s.locked, |s.pcs|)])
  }

  /** A sleeper becomes runnable; anyone else is left alone. */
  function Woken(pcs: seq<Pc>, k: nat): (r: seq<Pc>)
    ensures |r| == |pcs|
  {
    if k < |pcs| && Sleeping(pcs[k]) then pcs[k := Ready] else pcs
  }

  /** The process state is SLEEPING, on the lock's channel. */
  predicate Sleeping(pc: Pc) { pc.Switch? || pc.Asleep? }

  function Step(s: State, e: Event): State {
    match e
    case Move(i) => if CanMove(s, i) then Moved(s, i) else s
    case Kill(i) => if s.table.Kernel? then s.(pcs := Woken(s.pcs, i)) else s
    case KernelTakes => if s.table.Nobody? then s.(table := Kernel) else s
    case KernelReleases => if s.table.Kernel? then s.(table := Nobody) else s
  }

  function Run(s: State, es: seq<Event>): State {
    if es == [] then s else Step(Run(s, es[..|es| - 1]), es[|es| - 1])
  }

  function Start(n: nat): State { State(Nobody, Nobody, false, 0, seq(n, i => Idle)) }

  // ---- invariant ---------------------------------------------------------------------------------

  predicate HoldsInner(pc: Pc) {
    pc.Test? || pc.WantTable? || pc.GotTable? || pc.Taken? || pc.Drop? || pc.WantScan? || pc.Scan? || pc.Leave?
  }

  predicate HoldsTable(pc: Pc) { pc.GotTable? || pc.Mark? || pc.Switch? || pc.Tidy? || pc.Scan? }

  /** Between the return of acquiresleep and releasesleep's clearing of locked. */
  predicate Owns(pc: Pc) { pc.Taken? || pc.Held? || pc.WantInner? || pc.Drop? }

  /** Sleeping, or bound to sleep without testing locked again. */
  predicate Sleepy(pc: Pc) { pc.Mark? || Sleeping(pc) }

  predicate InnerExact(s: State) {
    && (s.inner.Process? ==> s.inner.id < |s.pcs| && HoldsInner(s.pcs[s.inner.id]))
    && !s.inner.Kernel?
    && forall i :: 0 <= i < |s.pcs| && HoldsInner(s.pcs[i]) ==> s.inner == Process(i)
  }

  predicate TableExact(s: State) {
    && (s.table.Process? ==> s.table.id < |s.pcs| && HoldsTable(s.pcs[s.table.id]))
    && forall i :: 0 <= i < |s.pcs| && HoldsTable(s.pcs[i]) ==> s.table == Process(i)
  }

  predicate OwnerExact(s: State) {
    && (s.locked ==> 0 < s.pid <= |s.pcs| && Owns(s.pcs[s.pid - 1]))
    && (!s.locked ==> s.pid == 0)
    && forall i :: 0 <= i < |s.pcs| && Owns(s.pcs[i]) ==> s.locked && s.pid == i + 1
  }

  /** The wakeup that will reach process i is on its way. */
  predicate Coming(s: State, i: nat) {
    s.inner.Process? && s.inner.id < |s.pcs| &&
    (s.pcs[s.inner.id].WantScan? || (s.pcs[s.inner.id].Scan? && s.pcs[s.inner.id].next <= i))
  }

  predicate NotLostAt(s: State, i: nat) {
    i < |s.pcs| ==>
      && (Sleepy(s.pcs[i]) ==> s.locked || Coming(s, i))
      && (s.pcs[i].WantTable? || s.pcs[i].GotTable? ==> s.locked)
  }

  predicate NotLost(s: State) { forall i: nat :: i < |s.pcs| ==> NotLostAt(s, i) }

  predicate Inv(s: State) { InnerExact(s) && TableExact(s) && OwnerExact(s) && NotLost(s) }

  lemma MoveKeepsInner(s: State, i: nat)
    requires InnerExact(s) && CanMove(s, i)
    ensures InnerExact(Moved(s, i))
  {
  }

  lemma MoveKeepsTable(s: State, i: nat)
    requires TableExact(s) && CanMove(s, i)
    ensures TableExact(Moved(s, i))
  {
  }

  lemma MoveKeepsOwner(s: State, i: nat)
    requires InnerExact(s) && OwnerExact(s) && CanMove(s, i)
    ensures OwnerExact(Moved(s, i))
  {
  }

  lemma MoveKeepsNotLost(s: State, i: nat)
    requires Inv(s) && CanMove(s, i)
    ensures NotLost(Moved(s, i))
  {
    assert NotLostAt(s, i);
    forall j: nat | j < |s.pcs| ensures NotLostAt(Moved(s, i), j) {
      assert NotLostAt(s, j);
    }
  }

  lemma KillKeeps(s: State, k: nat)
    requires Inv(s) && s.table.Kernel?
    ensures Inv(s.(pcs := Woken(s.pcs, k)))
  {
    forall j: nat | j < |s.pcs| ensures NotLostAt(s.(pcs := Woken(s.pcs, k)), j) {
      assert NotLostAt(s, j);
    }
  }

  lemma KernelKeeps(s: State, h: Holder)
    requires Inv(s) && !s.table.Process? && !h.Process?
    ensures Inv(s.(table := h))
  {
    forall j: nat | j < |s.pcs| ensures NotLostAt(s.(table := h), j) {
      assert NotLostAt(s, j);
    }
  }

  lemma StepKeeps(s: State, e: Event)
    requires Inv(s)
    ensures Inv(Step(s, e)) && |Step(s, e).pcs| == |s.pcs|
  {
    hide InnerExact, TableExact, OwnerExact, NotLost;
    match e
    case Move(i) =>
      if CanMove(s, i) {
        MoveKeepsInner(s, i);
        MoveKeepsTable(s, i);
        MoveKeepsOwner(s, i);
        MoveKeepsNotLost(s, i);
      }
    case Kill(i) => if s.table.Kernel? { KillKeeps(s, i); }
    case KernelTakes => if s.table.Nobody? { KernelKeeps(s, Kernel); }
    case KernelReleases => if s.table.Kernel? { KernelKeeps(s, Nobody); }
  }

  lemma {:induction false} Reachable(n: nat, es: seq<Event>)
    ensures Inv(Run(Start(n), es)) && |Run(Start(n), es).pcs| == n
  {
    if es != [] {
      Reachable(n, es[..|es| - 1]);
      StepKeeps(Run(Start(n), es[..|es| - 1]), es[|es| - 1]);
    }
  }

  // ---- what it is for ---------------------------------------------------------------------------------

  /** At most one process holds the lock, in every reachable state. */
  lemma MutualExclusion(n: nat, es: seq<Event>, i: nat, j: nat)
    requires i < n && j < n
    ensures var s := Run(Start(n), es);
            && |s.pcs| == n
            && (Owns(s.pcs[i]) && Owns(s.pcs[j]) ==> i == j)
            && (Owns(s.pcs[i]) ==> s.locked && s.pid == i + 1)
  {
    Reachable(n, es);
  }

  /** Whenever the inner spinlock is free, a process asleep on the lock means somebody holds it. */
  lemma NoLostWakeup(n: nat, es: seq<Event>, i: nat)
    requires i < n
    ensures var s := Run(Start(n), es);
            && |s.pcs| == n
            && (s.inner.Nobody? && Sleeping(s.pcs[i]) ==> s.locked && 0 < s.pid <= n && Owns(s.pcs[s.pid - 1]))
  {
    Reachable(n, es);
    assert NotLostAt(Run(Start(n), es), i);
  }

  /**
    No reachable state is stuck: while any process is inside acquiresleep or releasesleep, or
    holds the lock, some such process can take a step as soon as ptable.lock is not held by the
    rest of the kernel.
   */
  lemma NeverStuck(n: nat, es: seq<Event>, i: nat)
    requires i < n
    ensures var s := Run(Start(n), es);
            && |s.pcs| == n
            && (!s.table.Kernel? && !s.pcs[i].Idle? ==> exists j: nat :: j < n && !s.pcs[j].Idle? && CanMove(s, j))
  {
    Reachable(n, es);
    var s := Run(Start(n), es);
    if !s.table.Kernel? && !s.pcs[i].Idle? {
      if s.table.Process? {
        assert CanMove(s, s.table.id);
      } else if s.inner.Process? {
        assert CanMove(s, s.inner.id);
      } else if Sleeping(s.pcs[i]) {
        assert NotLostAt(s, i);
        assert CanMove(s, s.pid - 1);
      } else {
        assert CanMove(s, i);
      }
    }
  }
}
