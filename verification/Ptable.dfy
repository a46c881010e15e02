/** The loops over the process table, each refining its critical section. */
module Ptable {
  import opened Wrappers
  import opened ProcTable

  class Ptable {
    var procs: seq<Proc>
    var nextpid: nat
    ghost var exited: set<nat>
    ghost var reaped: seq<nat>

    ghost function View(): Table
      reads this
    {
      Table(procs, nextpid, exited, reaped)
    }

    constructor (n: nat)
      requires n > 0
      ensures View() == Boot(n) && Inv(View(), 0)
    {
      procs := Boot(n).procs;
      nextpid := 2;
      exited, reaped := {}, [];
      new;
      ProcessTree(n, []);
    }

    /** allocproc up to its release of ptable.lock. */
    method Allocproc() returns (slot: nat, found: bool)
      modifies this
      ensures View() == Step(old(View()), Alloc, 0)
      ensures found == exists i :: 0 <= i < |old(procs)| && old(procs)[i].state.Unused?
      ensures found ==> slot < |procs| && old(procs)[slot].state.Unused? && nextpid == old(nextpid) + 1
                        && (forall i :: 0 <= i < slot ==> !old(procs)[i].state.Unused?)
                        && procs == old(procs)[slot := old(procs)[slot].(state := Embryo, pid := old(nextpid))]
      ensures !found ==> View() == old(View())
    {
      slot, found := 0, false;
      FirstUnusedIs(procs, 0);
      while slot < |procs|
        invariant slot <= |procs| && FirstUnused(procs, 0) == FirstUnused(procs, slot)
        invariant forall i :: 0 <= i < slot ==> !procs[i].state.Unused?
      {
        if procs[slot].state.Unused? {
          procs := procs[slot := procs[slot].(state := Embryo)];
          procs := procs[slot := procs[slot].(pid := nextpid)];
          nextpid := nextpid + 1;
          return slot, true;
        }
        slot := slot + 1;
      }
    }

    method Wakeup1(c: Chan)
      modifies this`procs
      ensures procs == WakeAll(old(procs), c)
      ensures |procs| == |old(procs)|
      ensures forall i :: 0 <= i < |procs| ==> var p := old(procs)[i];
                procs[i] == if p.state == Sleeping && p.chan == c then p.(state := Runnable) else p
    {
      var i := 0;
      while i < |procs|
        invariant 0 <= i <= |procs| == |old(procs)|
        invariant forall j :: 0 <= j < |procs| ==> procs[j] == if j < i then Wake(old(procs)[j], c) else old(procs)[j]
      {
        if procs[i].state.Sleeping? && procs[i].chan == c {
          procs := procs[i := procs[i].(state := Runnable)];
        }
        i := i + 1;
      }
    }

    /** exit from its acquisition of ptable.lock; init panics before. */
    method Exit(cur: nat, init: nat)
      requires cur < |procs| && procs[cur].state.Running? && cur != init
      modifies this
      ensures View() == Step(old(View()), ProcTable.Exit(cur), init)
      ensures |procs| == |old(procs)|
      ensures forall i: nat :: i < |procs| ==> ExitTells(old(procs), cur, init, i, procs[i])
    {
      ghost var ps := procs;
      Wakeup1(ChanOf(procs[cur].parent));
      ghost var qs := procs;
      var i := 0;
      while i < |procs|
        invariant 0 <= i <= |procs| == |ps| && nextpid == old(nextpid) && exited == old(exited) && reaped == old(reaped)
        invariant forall j :: 0 <= j < |procs| ==> procs[j] == Adopted(qs, cur, init, i, j)
      {
        AdoptedNext(qs, cur, init, i);
        if procs[i].parent == Some(cur) {
          procs := procs[i := procs[i].(parent := Some(init))];
          if procs[i].state.Zombie? {
            Wakeup1(OfProc(init));
          }
        }
        i := i + 1;
      }
      procs := procs[cur := procs[cur].(state := Zombie)];
      exited := exited + {ps[cur].pid};
      AdoptedAll(ps, cur, init);
      assert procs == ExitSpec(old(View()), cur, init).procs;
      ExitExactly(old(View()), cur, init);
    }

    /** One turn of wait's loop; after Slept the caller takes another turn once it runs again. */
    method Wait(cur: nat) returns (r: WaitResult)
      requires cur < |procs| && procs[cur].state.Running?
      modifies this
      ensures View() == WaitSpec(old(View()), cur).0 && r == WaitSpec(old(View()), cur).1
      ensures WaitTells(old(procs), cur, procs, r)
    {
      WaitExactly(View(), cur);
      FirstZombieIs(procs, cur, 0);
      var havekids := false;
      var i := 0;
      while i < |procs|
        invariant 0 <= i <= |procs| && View() == old(View())
        invariant FirstZombie(procs, cur, 0) == FirstZombie(procs, cur, i)
        invariant havekids == exists j :: 0 <= j < i && procs[j].parent == Some(cur)
      {
        if procs[i].parent == Some(cur) {
          havekids := true;
          if procs[i].state.Zombie? {
            var pid := procs[i].pid;
            procs := procs[i := procs[i].(pid := 0)];
            procs := procs[i := procs[i].(parent := None)];
            procs := procs[i := procs[i].(killed := false)];
            procs := procs[i := procs[i].(state := Unused)];
            reaped := reaped + [pid];
            return Reaped(pid);
          }
        }
        i := i + 1;
      }
      if !havekids || procs[cur].killed {
        return NoChild;
      }
      procs := procs[cur := procs[cur].(chan := OfProc(cur))];
      procs := procs[cur := procs[cur].(state := Sleeping)];
      return Slept;
    }

    method Kill(pid: nat) returns (ok: bool)
      modifies this
      ensures View() == Step(old(View()), ProcTable.Kill(pid), 0)
      ensures ok == exists i :: 0 <= i < |old(procs)| && old(procs)[i].pid == pid
      ensures !ok ==> View() == old(View())
      ensures ok ==> exists k :: 0 <= k < |procs| == |old(procs)| && old(procs)[k].pid == pid
                       && (forall i :: 0 <= i < k ==> old(procs)[i].pid != pid)
                       && var p := old(procs)[k];
                       var q := p.(killed := true, state := if p.state == Sleeping then Runnable else p.state);
                       procs == old(procs)[k := q]
    {
      FirstPidIs(procs, pid, 0);
      var i := 0;
      while i < |procs|
        invariant 0 <= i <= |procs| && View() == old(View())
        invariant FirstPid(procs, pid, 0) == FirstPid(procs, pid, i)
        invariant forall j :: 0 <= j < i ==> procs[j].pid != pid
      {
        if procs[i].pid == pid {
          procs := procs[i := procs[i].(killed := true)];
          if procs[i].state.Sleeping? {
            procs := procs[i := procs[i].(state := Runnable)];
          }
          return true;
        }
        i := i + 1;
      }
      return false;
    }
  }

  // ---- exit's second loop -----------------------------------------------------------------------------

  /** Slot j when the loop has passed the slots below i. */
  ghost function Adopted(qs: seq<Proc>, cur: nat, init: nat, i: nat, j: nat): Proc
    requires j < |qs| && i <= |qs|
  {
    var q := if HasZombieChild(qs[..i], cur) then Wake(qs[j], OfProc(init)) else qs[j];
    if j < i then Reparent(q, cur, init) else q
  }

  lemma AdoptedNext(qs: seq<Proc>, cur: nat, init: nat, i: nat)
    requires i < |qs|
    ensures HasZombieChild(qs[..i + 1], cur) == (HasZombieChild(qs[..i], cur) || ZombieChild(qs[i], cur))
  {
  }

  /** Waking the parent first does not change who is a zombie child. */
  lemma AdoptedAll(ps: seq<Proc>, cur: nat, init: nat)
    requires cur < |ps|
    ensures var qs := WakeAll(ps, ChanOf(ps[cur].parent));
            forall j: nat :: j < |ps| ==>
              var p := Adopted(qs, cur, init, |qs|, j);
              ExitOne(ps, cur, init, j) == if j == cur then p.(state := Zombie) else p
  {
    var qs := WakeAll(ps, ChanOf(ps[cur].parent));
    assert qs[..|qs|] == qs;
    forall k | 0 <= k < |ps| ensures ZombieChild(ps[k], cur) == ZombieChild(qs[k], cur) {
    }
    assert HasZombieChild(qs, cur) == HasZombieChild(ps, cur) by {
      if HasZombieChild(ps, cur) {
        var k :| 0 <= k < |ps| && ZombieChild(ps[k], cur);
        assert ZombieChild(qs[k], cur);
      }
    }
  }
}
