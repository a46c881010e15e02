/**
  Copy-on-write after fork: page tables that share frames behave like private memories.
  A slot is one page of one process; a page number is a virtual address divided by PGSIZE.
  An entry is in the map when the present bit is set.  The steps of different processes
  interleave freely, also while another process is in the middle of its fork.
 */
module Cow {
  import opened Params
  import opened Wrappers

  type Pid = nat
  type Page = nat
  type Frame = nat
  type Data = int                     // the contents of a page

  const JUNK: Data := 1               // kfree fills the frame with this

  datatype Slot = Slot(pid: Pid, page: Page)
  datatype Pte = Pte(frame: Frame, writable: bool, cow: bool)

  datatype Memory = Memory(entries: map<Slot, Pte>, frames: map<Frame, Data>, free: set<Frame>)

  datatype Mapping = Mapping(addr: nat, length: nat, isPrivate: bool)

  datatype Event =
    | Map(at: Slot, frame: Frame, data: Data)   // a page first mapped, to a fresh frame
    | Copy(src: Slot, at: Slot, frame: Frame)   // one page of copyuvm
    | Share(src: Slot, at: Slot)                // one page of fork's copy-on-write section
    | Store(at: Slot, data: Data)               // a store the hardware lets through
    | Fault(at: Slot, frame: Frame)             // the copy-on-write branch of the fault handler
    | Exit(pid: Pid)                            // freevm: every frame of the table is freed

  // ---- one step ----------------------------------------------------------------------------

  function FramesOf(m: Memory, p: Pid): set<Frame> {
    set s | s in m.entries && s.pid == p :: m.entries[s].frame
  }

  /** Some other process also maps a frame of p. */
  predicate Shares(m: Memory, p: Pid) {
    exists s :: s in m.entries && s.pid != p && m.entries[s].frame in FramesOf(m, p)
  }

  /** What the code or the hardware checks, and that kalloc hands out only free frames. */
  predicate Enabled(m: Memory, e: Event) {
    match e
    case Map(at, f, _) => at !in m.entries && f in m.free
    case Copy(src, at, f) => src in m.entries && at !in m.entries && f in m.free
    case Share(src, at) => src.pid != at.pid
    case Store(at, _) => at in m.entries && m.entries[at].writable
    case Fault(at, f) => OnlyCow(m, at) && f in m.free
    case Exit(p) => true
  }

  function Protect(e: Pte): Pte { e.(writable := false, cow := true) }

  function Fetch(m: Memory, f: Frame): Data { if f in m.frames then m.frames[f] else JUNK }

  /** Entry s now names the frame f, which leaves the free list holding d. */
  function Place(m: Memory, s: Slot, e: Pte, d: Data): Memory {
    Memory(m.entries[s := e], m.frames[e.frame := d], m.free - {e.frame})
  }

  function Step(m: Memory, e: Event): Memory {
    if !Enabled(m, e) then m else
    match e
    case Map(at, f, d) => Place(m, at, Pte(f, true, false), d)
    case Copy(src, at, f) => Place(m, at, m.entries[src].(frame := f), Fetch(m, m.entries[src].frame))
    case Share(src, at) =>
      if src !in m.entries then m
      else var e := Protect(m.entries[src]); m.(entries := m.entries[src := e][at := e])
    case Store(at, d) => m.(frames := m.frames[m.entries[at].frame := d])
    case Fault(at, f) => Place(m, at, Pte(f, true, false), Fetch(m, m.entries[at].frame))
    case Exit(p) =>
      Memory(map s | s in m.entries && s.pid != p :: m.entries[s],
             map f | f in m.frames :: if f in FramesOf(m, p) then JUNK else m.frames[f],
             m.free + FramesOf(m, p))
  }

  // ---- the private memories it should look like ------------------------------------------------

  type Private = map<Slot, Data>

  /** What each process reads at each of its pages. */
  function View(m: Memory): Private { map s | s in m.entries :: Fetch(m, m.entries[s].frame) }

  /** Every process has its own copy: no frames, no flags. */
  function PrivateStep(v: Private, e: Event): Private {
    match e
    case Map(at, _, d) => v[at := d]
    case Copy(src, at, _) => if src in v then v[at := v[src]] else v
    case Share(src, at) => if src in v then v[at := v[src]] else v
    case Store(at, d) => v[at := d]
    case Fault(_, _) => v
    case Exit(p) => map s | s in v && s.pid != p :: v[s]
  }

  // ---- the invariant ------------------------------------------------------------------------------

  /** A frame two entries name is writable through neither. */
  predicate Exclusive(m: Memory) {
    forall s, t :: s in m.entries && t in m.entries && s != t && m.entries[s].frame == m.entries[t].frame ==>
      !m.entries[s].writable
  }

  predicate Grounded(m: Memory) {
    && m.free <= m.frames.Keys
    && forall s :: s in m.entries ==> m.entries[s].frame in m.frames && m.entries[s].frame !in m.free
  }

  /** A page that cannot be written is marked copy-on-write, so the fault handler can open it. */
  predicate Openable(m: Memory) {
    forall s :: s in m.entries ==> m.entries[s].writable || m.entries[s].cow
  }

  predicate Inv(m: Memory) { Exclusive(m) && Grounded(m) && Openable(m) }

  /** No frame is freed while another process still maps it: there is no reference count. */
  predicate Proper(m: Memory, e: Event) {
    Enabled(m, e) && (e.Exit? ==> !Shares(m, e.pid))
  }

  lemma PlaceKeeps(m: Memory, s: Slot, e: Pte, d: Data)
    requires Inv(m) && e.frame in m.free && (e.writable || e.cow)
    ensures Inv(Place(m, s, e, d)) && View(Place(m, s, e, d)) == View(m)[s := d]
  {
  }

  lemma ShareKeeps(m: Memory, src: Slot, at: Slot)
    requires Inv(m) && src != at
    ensures Enabled(m, Share(src, at)) ==>
              && Inv(Step(m, Share(src, at)))
              && View(Step(m, Share(src, at))) == PrivateStep(View(m), Share(src, at))
  {
  }

  lemma StoreKeeps(m: Memory, at: Slot, d: Data)
    requires Inv(m) && Enabled(m, Store(at, d))
    ensures Inv(Step(m, Store(at, d))) && View(Step(m, Store(at, d))) == View(m)[at := d]
  {
  }

  lemma ExitKeeps(m: Memory, p: Pid)
    requires Inv(m) && !Shares(m, p)
    ensures Inv(Step(m, Exit(p))) && View(Step(m, Exit(p))) == PrivateStep(View(m), Exit(p))
  {
  }

  /** One step keeps the invariant and does to the views what it would do to private memories. */
  lemma StepKeeps(m: Memory, e: Event)
    requires Inv(m) && Proper(m, e)
    ensures Inv(Step(m, e)) && View(Step(m, e)) == PrivateStep(View(m), e)
  {
    match e
    case Map(at, f, d) => PlaceKeeps(m, at, Pte(f, true, false), d);
    case Copy(src, at, f) => PlaceKeeps(m, at, m.entries[src].(frame := f), Fetch(m, m.entries[src].frame));
    case Share(src, at) => ShareKeeps(m, src, at);
    case Store(at, d) => StoreKeeps(m, at, d);
    case Fault(at, f) =>
      PlaceKeeps(m, at, Pte(f, true, false), Fetch(m, m.entries[at].frame));
      assert View(m)[at := Fetch(m, m.entries[at].frame)] == View(m);
    case Exit(p) => ExitKeeps(m, p);
  }

  /**
    Freeing the page table of p keeps the invariant exactly when p shares no frame: the other
    sharer is left with an entry that names a free frame.
   */
  lemma ExitKeepsExactly(m: Memory, p: Pid)
    requires Inv(m)
    ensures Inv(Step(m, Exit(p))) <==> !Shares(m, p)
  {
    if !Shares(m, p) {
      ExitKeeps(m, p);
    } else {
      var s :| s in m.entries && s.pid != p && m.entries[s].frame in FramesOf(m, p);
      assert Step(m, Exit(p)).entries[s].frame in Step(m, Exit(p)).free;
    }
  }

  // ---- whole runs -----------------------------------------------------------------------------------

  function Run(m: Memory, es: seq<Event>): Memory {
    if es == [] then m else Step(Run(m, es[..|es| - 1]), es[|es| - 1])
  }

  function PrivateRun(v: Private, es: seq<Event>): Private {
    if es == [] then v else PrivateStep(PrivateRun(v, es[..|es| - 1]), es[|es| - 1])
  }

  predicate ProperRun(m: Memory, es: seq<Event>) {
    forall i :: 0 <= i < |es| ==> Proper(Run(m, es[..i]), es[i])
  }

  lemma ProperPrefix(m: Memory, es: seq<Event>)
    requires ProperRun(m, es) && es != []
    ensures ProperRun(m, es[..|es| - 1]) && Proper(Run(m, es[..|es| - 1]), es[|es| - 1])
  {
    var pre := es[..|es| - 1];
    forall i | 0 <= i < |pre| ensures Proper(Run(m, pre[..i]), pre[i]) {
      assert pre[..i] == es[..i];
    }
  }

  /** Sharing is invisible: over every run each process reads what private memories would hold. */
  lemma {:induction false} Isolation(m: Memory, es: seq<Event>)
    requires Inv(m) && ProperRun(m, es)
    ensures Inv(Run(m, es)) && View(Run(m, es)) == PrivateRun(View(m), es)
  {
    if es != [] {
      ProperPrefix(m, es);
      Isolation(m, es[..|es| - 1]);
      StepKeeps(Run(m, es[..|es| - 1]), es[|es| - 1]);
    }
  }

  /** The event is one that process p itself makes at s, or that ends p, or that forks into s. */
  predicate Touches(e: Event, s: Slot) {
    match e
    case Map(at, _, _) => at == s
    case Copy(_, at, _) => at == s
    case Share(_, at) => at == s
    case Store(at, _) => at == s
    case Fault(_, _) => false
    case Exit(p) => p == s.pid
  }

  /** What a process reads at a page changes only by its own doing, however the frames are shared. */
  lemma {:induction false} OthersStoresAreInvisible(m: Memory, es: seq<Event>, s: Slot)
    requires Inv(m) && ProperRun(m, es) && s in m.entries
    requires forall i :: 0 <= i < |es| ==> !Touches(es[i], s)
    ensures s in View(Run(m, es)) && View(Run(m, es))[s] == View(m)[s]
  {
    Isolation(m, es);
    PrivatelyUntouched(View(m), es, s);
  }

  lemma {:induction false} PrivatelyUntouched(v: Private, es: seq<Event>, s: Slot)
    requires s in v && forall i :: 0 <= i < |es| ==> !Touches(es[i], s)
    ensures s in PrivateRun(v, es) && PrivateRun(v, es)[s] == v[s]
  {
    if es != [] {
      assert !Touches(es[|es| - 1], s);
      PrivatelyUntouched(v, es[..|es| - 1], s);
    }
  }

  /** A store to any mapped page completes, after at most one fault, and only that page sees it. */
  lemma StoreCompletes(m: Memory, s: Slot, f: Frame, d: Data)
    requires Inv(m) && s in m.entries && f in m.free
    ensures var m1 := if m.entries[s].writable then m else Step(m, Fault(s, f));
            && Enabled(m1, Store(s, d))
            && View(Step(m1, Store(s, d))) == View(m)[s := d]
  {
    if !m.entries[s].writable {
      StepKeeps(m, Fault(s, f));
      StepKeeps(Step(m, Fault(s, f)), Store(s, d));
    } else {
      StepKeeps(m, Store(s, d));
    }
  }

  // ---- fork's copy-on-write section as the loops that run it ----------------------------------------

  function Visit(p: Pid, c: Pid, lo: Page, n: nat): seq<Event> {
    seq(n, i requires 0 <= i < n => Share(Slot(p, lo + i), Slot(c, lo + i)))
  }

  /** One event for every page address the loops step through: none unless the mapping is private. */
  function Visits(p: Pid, c: Pid, ms: seq<Mapping>): seq<Event> {
    if ms == [] then []
    else
      var m := ms[|ms| - 1];
      Visits(p, c, ms[..|ms| - 1])
      + (if m.isPrivate then Visit(p, c, m.addr / PGSIZE, (m.length + PGSIZE - 1) / PGSIZE) else [])
  }

  lemma {:induction false} RunAppend(m: Memory, es: seq<Event>, fs: seq<Event>)
    ensures Run(m, es + fs) == Run(Run(m, es), fs)
    decreases |fs|
  {
    if fs == [] {
      assert es + fs == es;
    } else {
      var n := |fs| - 1;
      assert (es + fs)[..|es| + n] == es + fs[..n];
      RunAppend(m, es, fs[..n]);
    }
  }

  lemma VisitNext(m: Memory, p: Pid, c: Pid, lo: Page, n: nat)
    ensures Run(m, Visit(p, c, lo, n + 1)) == Step(Run(m, Visit(p, c, lo, n)), Share(Slot(p, lo + n), Slot(c, lo + n)))
  {
    var es := Visit(p, c, lo, n + 1);
    assert es[..n] == Visit(p, c, lo, n) && es[n] == Share(Slot(p, lo + n), Slot(c, lo + n));
  }

  /** The copy-on-write branch ran, panicked for want of a frame, or does not apply. */
  datatype FaultResult = Handled | OutOfMemory | NotCow

  predicate OnlyCow(m: Memory, s: Slot) { s in m.entries && m.entries[s].cow && !m.entries[s].writable }

  class Kernel {
    var mem: Memory

    constructor (mem: Memory)
      ensures this.mem == mem
    {
      this.mem := mem;
    }

    /** The loop over the parent's mappings. */
    method ShareMappings(parent: Pid, child: Pid, ms: seq<Mapping>)
      requires parent != child
      modifies this
      ensures mem == Run(old(mem), Visits(parent, child, ms))
    {
      var i := 0;
      while i < |ms|
        invariant 0 <= i <= |ms|
        invariant mem == Run(old(mem), Visits(parent, child, ms[..i]))
      {
        assert ms[..i + 1][..i] == ms[..i];
        ghost var before := Visits(parent, child, ms[..i]);
        assert before + [] == before;
        if ms[i].isPrivate {
          ShareMapping(parent, child, ms[i]);
          RunAppend(old(mem), before,
                    Visit(parent, child, ms[i].addr / PGSIZE, (ms[i].length + PGSIZE - 1) / PGSIZE));
        }
        i := i + 1;
      }
      assert ms[..|ms|] == ms;
    }

    /** The loop over the page addresses of one private mapping. */
    method ShareMapping(parent: Pid, child: Pid, m: Mapping)
      requires parent != child
      modifies this
      ensures mem == Run(old(mem), Visit(parent, child, m.addr / PGSIZE, (m.length + PGSIZE - 1) / PGSIZE))
    {
      ghost var lo, n := m.addr / PGSIZE, 0;
      var address := m.addr;
      while address < m.addr + m.length
        invariant address == m.addr + n * PGSIZE && n <= (m.length + PGSIZE - 1) / PGSIZE
        invariant mem == Run(old(mem), Visit(parent, child, lo, n))
        decreases m.addr + m.length - address
      {
        SharePage(parent, child, address);
        assert address / PGSIZE == lo + n;
        VisitNext(old(mem), parent, child, lo, n);
        address := address + PGSIZE;
        n := n + 1;
      }
    }

    method SharePage(parent: Pid, child: Pid, address: nat)
      requires parent != child
      modifies this
      ensures mem == Step(old(mem), Share(Slot(parent, address / PGSIZE), Slot(child, address / PGSIZE)))
      ensures mem.frames == old(mem).frames && mem.free == old(mem).free
      ensures var s := Slot(parent, address / PGSIZE);
              mem.entries == if s !in old(mem).entries then old(mem).entries
                             else
                               var e := Pte(old(mem).entries[s].frame, false, true);
                               old(mem).entries[s := e][Slot(child, address / PGSIZE) := e]
    {
      var s := Slot(parent, address / PGSIZE);
      if s in mem.entries {
        mem := mem.(entries := mem.entries[s := mem.entries[s].(writable := false)]);
        mem := mem.(entries := mem.entries[s := mem.entries[s].(cow := true)]);
        mem := mem.(entries := mem.entries[Slot(child, address / PGSIZE) := mem.entries[s]]);
      }
    }

    /** The copy-on-write branch, with the frame kalloc hands out if there is one; a fault that is not
        of this kind is left to the rest of the handler. */
    method PageFault(p: Pid, va: nat, got: Option<Frame>) returns (r: FaultResult)
      requires if got.Some? then got.value in mem.free else mem.free == {}
      modifies this
      ensures r.NotCow? <==> !OnlyCow(old(mem), Slot(p, va / PGSIZE))
      ensures r.OutOfMemory? <==> OnlyCow(old(mem), Slot(p, va / PGSIZE)) && got.None?
      ensures !r.Handled? ==> mem == old(mem)
      ensures r.Handled? ==>
                && Enabled(old(mem), Fault(Slot(p, va / PGSIZE), got.value))
                && mem == Step(old(mem), Fault(Slot(p, va / PGSIZE), got.value))
      ensures r.Handled? ==>
                var s := Slot(p, va / PGSIZE);
                && mem.entries == old(mem).entries[s := Pte(got.value, true, false)]
                && mem.frames == old(mem).frames[got.value := Fetch(old(mem), old(mem).entries[s].frame)]
                && mem.free == old(mem).free - {got.value}
    {
      var s := Slot(p, va / PGSIZE);
      if !(s in mem.entries && mem.entries[s].cow && !mem.entries[s].writable) {
        return NotCow;
      }
      if got.None? {
        return OutOfMemory;
      }
      var f, prior := got.value, mem.entries[s].frame;
      mem := mem.(free := mem.free - {f});
      mem := mem.(frames := mem.frames[f := Fetch(mem, prior)]);
      mem := mem.(entries := mem.entries[s := mem.entries[s].(frame := f, writable := true)]);
      mem := mem.(entries := mem.entries[s := mem.entries[s].(cow := false)]);
      return Handled;
    }
  }

  /** Those loops are a proper run, so they too are invisible to everyone but the child. */
  lemma {:induction false} VisitsAreProper(m: Memory, p: Pid, c: Pid, ms: seq<Mapping>)
    requires p != c
    ensures ProperRun(m, Visits(p, c, ms))
    ensures forall e :: e in Visits(p, c, ms) ==> e.Share? && e.src == Slot(p, e.at.page) && e.at.pid == c
  {
    if ms != [] {
      VisitsAreProper(m, p, c, ms[..|ms| - 1]);
    }
    forall i | 0 <= i < |Visits(p, c, ms)| ensures Proper(Run(m, Visits(p, c, ms)[..i]), Visits(p, c, ms)[i]) {
      assert Visits(p, c, ms)[i] in Visits(p, c, ms);
    }
  }

  /** The page is one fork visits: in a private mapping. */
  predicate Visited(ms: seq<Mapping>, g: Page) {
    exists i :: 0 <= i < |ms| && ms[i].isPrivate &&
                ms[i].addr / PGSIZE <= g < ms[i].addr / PGSIZE + (ms[i].length + PGSIZE - 1) / PGSIZE
  }

  /** A child page is inherited exactly when some event names it, and then equals the parent's. */
  lemma {:induction false} SharesInherit(v: Private, p: Pid, c: Pid, es: seq<Event>, s: Slot)
    requires p != c
    requires forall e :: e in es ==> e.Share? && e.src == Slot(p, e.at.page) && e.at.pid == c
    ensures var w := PrivateRun(v, es);
            if s.pid == c && Share(Slot(p, s.page), s) in es && Slot(p, s.page) in v
            then s in w && w[s] == v[Slot(p, s.page)]
            else (s in w <==> s in v) && (s in v ==> w[s] == v[s])
  {
    if es != [] {
      var n := |es| - 1;
      assert es[n] in es && es == es[..n] + [es[n]];
      SharesInherit(v, p, c, es[..n], s);
      SharesInherit(v, p, c, es[..n], Slot(p, es[n].at.page));
    }
  }

  lemma {:induction false} VisitsExactly(p: Pid, c: Pid, ms: seq<Mapping>, g: Page)
    ensures Share(Slot(p, g), Slot(c, g)) in Visits(p, c, ms) <==> Visited(ms, g)
  {
    if ms != [] {
      var k := |ms| - 1;
      var m, e := ms[k], Share(Slot(p, g), Slot(c, g));
      var lo, n := m.addr / PGSIZE, (m.length + PGSIZE - 1) / PGSIZE;
      VisitsExactly(p, c, ms[..k], g);
      assert e in Visit(p, c, lo, n) <==> lo <= g < lo + n by {
        if lo <= g < lo + n { assert Visit(p, c, lo, n)[g - lo] == e; }
      }
      if Visited(ms[..k], g) {
        var i :| && 0 <= i < |ms[..k]| && ms[..k][i].isPrivate && ms[..k][i].addr / PGSIZE <= g
                 && g < ms[..k][i].addr / PGSIZE + (ms[..k][i].length + PGSIZE - 1) / PGSIZE;
        assert ms[i] == ms[..k][i];
      }
      if Visited(ms, g) {
        var i :| 0 <= i < |ms| && ms[i].isPrivate
                 && ms[i].addr / PGSIZE <= g < ms[i].addr / PGSIZE + (ms[i].length + PGSIZE - 1) / PGSIZE;
        assert i < k ==> ms[i] == ms[..k][i];
      }
    }
  }

  /**
    After fork's copy-on-write section the child reads the parent's bytes at every private page
    that was present, every other page of every process reads as before, and from then on the
    two are isolated (Isolation applies to the state reached).
   */
  lemma ForkSharesExactly(m: Memory, p: Pid, c: Pid, ms: seq<Mapping>, s: Slot)
    requires Inv(m) && p != c
    ensures var m' := Run(m, Visits(p, c, ms));
            && Inv(m')
            && if s.pid == c && Visited(ms, s.page) && Slot(p, s.page) in m.entries
               then s in m'.entries && View(m')[s] == View(m)[Slot(p, s.page)]
               else (s in m'.entries <==> s in m.entries) && (s in m.entries ==> View(m')[s] == View(m)[s])
  {
    var es := Visits(p, c, ms);
    VisitsAreProper(m, p, c, ms);
    Isolation(m, es);
    SharesInherit(View(m), p, c, es, s);
    VisitsExactly(p, c, ms, s.page);
    var w, m' := PrivateRun(View(m), es), Run(m, es);
    assert s in w <==> s in m'.entries;
  }

  /** Why the hypothesis is needed: a child that exits takes the parent's page with it. */
  lemma FreedBySharer(parent: Slot, child: Slot, f: Frame, d: Data) returns (m: Memory, es: seq<Event>)
    requires parent.pid != child.pid && d != JUNK
    ensures Inv(m) && parent in m.entries && View(m)[parent] == d
    ensures forall i :: 0 <= i < |es| ==> Enabled(Run(m, es[..i]), es[i]) && !Touches(es[i], parent)
    ensures parent in Run(m, es).entries && View(Run(m, es))[parent] == JUNK
  {
    m := Memory(map[parent := Pte(f, true, false)], map[f := d], {});
    var e0, e1 := Share(parent, child), Exit(child.pid);
    es := [e0, e1];
    assert es[..0] == [] && es[..1] == [e0] && es[..2] == es;
    var m1, m2 := Step(m, e0), Step(Step(m, e0), e1);
    assert Run(m, [e0]) == m1 by { assert [e0][..0] == []; }
    assert Run(m, es) == m2 by { assert es[..1] == [e0]; }
    assert m1.entries[child].frame == f && f in FramesOf(m1, child.pid);
  }
}
