/**
  Two-level page tables in physical memory.  A frame holds bytes, a table of 1024 entries, or
  the junk kfree leaves.  `owner` says what each allocated frame is for; a frame has one owner,
  which rules out the frames that copy-on-write shares.  Page numbers are virtual addresses
  divided by PGSIZE; the user half is the pages below USER.
 */
module VmSpec {
  import opened Params

  type Frame = nat

  const NENTRIES := 1024
  const USER := KERNBASE / PGSIZE
  const LAST := TWO32 / PGSIZE          // number of virtual pages
  const WU := 6                         // PTE_W and PTE_U; presence is the constructor

  datatype Pte = Absent | Pte(frame: Frame, flags: nat)

  datatype Content = Junk | Bytes(data: int) | Table(entries: seq<Pte>)

  type Memory = map<Frame, Content>

  datatype Role =
    | Root(dir: Frame)                  // the page directory itself
    | TableOf(dir: Frame, pdx: nat)     // the page table behind one directory entry
    | PageOf(dir: Frame, page: nat)     // a user page

  type Owners = map<Frame, Role>

  // ---- the two levels ---------------------------------------------------------------------------

  function Entry(mem: Memory, t: Frame, i: nat): Pte {
    if t in mem && mem[t].Table? && i < |mem[t].entries| then mem[t].entries[i] else Absent
  }

  /** The flat map: what the hardware finds for a page, going through directory and table. */
  function Get(mem: Memory, d: Frame, v: nat): Pte {
    var pde := Entry(mem, d, v / NENTRIES);
    if pde.Absent? then Absent else Entry(mem, pde.frame, v % NENTRIES)
  }

  /** What the processor makes of a page: both levels must allow a write, and both a user access. */
  datatype Access = Fault | Reach(frame: Frame, writable: bool, user: bool)

  predicate AllowsWrite(flags: nat) { flags / 0x2 % 2 == 1 }      // PTE_W

  predicate AllowsUser(flags: nat) { flags / 0x4 % 2 == 1 }       // PTE_U

  function Hardware(mem: Memory, d: Frame, v: nat): Access {
    var pde := Entry(mem, d, v / NENTRIES);
    if pde.Absent? then Fault else
    var pte := Entry(mem, pde.frame, v % NENTRIES);
    if pte.Absent? then Fault
    else
      Reach(pte.frame, AllowsWrite(pde.flags) && AllowsWrite(pte.flags),
            AllowsUser(pde.flags) && AllowsUser(pte.flags))
  }

  predicate IsTable(mem: Memory, t: Frame) {
    t in mem && mem[t].Table? && |mem[t].entries| == NENTRIES
  }

  predicate IsDir(owner: Owners, d: Frame) { d in owner && owner[d] == Root(d) }

  // ---- the invariant ---------------------------------------------------------------------------------

  ghost predicate NoDup(s: seq<Frame>) { forall i, j :: 0 <= i < j < |s| ==> s[i] != s[j] }

  ghost predicate FreeOk(free: seq<Frame>, mem: Memory, owner: Owners) {
    NoDup(free) && forall f :: f in free ==> f > 0 && f !in owner && f in mem
  }

  /** The frame is where its role says it is. */
  ghost predicate RoleOk(mem: Memory, owner: Owners, f: Frame)
    requires f in owner
  {
    match owner[f]
    case Root(d) => d == f && IsTable(mem, f)
    case TableOf(d, i) =>
      IsDir(owner, d) && i < NENTRIES && Entry(mem, d, i).Pte? && Entry(mem, d, i).frame == f && IsTable(mem, f)
    case PageOf(d, v) =>
      IsDir(owner, d) && v < USER && Get(mem, d, v).Pte? && Get(mem, d, v).frame == f && f in mem && mem[f].Bytes?
  }

  ghost predicate RolesOk(mem: Memory, owner: Owners) { forall f :: f in owner ==> f > 0 && RoleOk(mem, owner, f) }

  ghost predicate TablesOk(mem: Memory, owner: Owners) {
    forall d, i: nat :: IsDir(owner, d) && i < NENTRIES && Entry(mem, d, i).Pte? ==>
      Entry(mem, d, i).frame in owner && owner[Entry(mem, d, i).frame] == TableOf(d, i) && Entry(mem, d, i).flags == WU
  }

  ghost predicate PagesOk(mem: Memory, owner: Owners) {
    forall d, v: nat :: IsDir(owner, d) && v < USER && Get(mem, d, v).Pte? ==>
      Get(mem, d, v).frame in owner && owner[Get(mem, d, v).frame] == PageOf(d, v)
  }

  ghost predicate Ok(free: seq<Frame>, mem: Memory, owner: Owners) {
    FreeOk(free, mem, owner) && RolesOk(mem, owner) && TablesOk(mem, owner) && PagesOk(mem, owner)
  }

  /** A frame that kalloc handed out and nobody uses yet. */
  ghost predicate InHand(free: seq<Frame>, mem: Memory, owner: Owners, f: Frame) {
    f > 0 && f in mem && f !in free && f !in owner
  }

  lemma HeadInHand(free: seq<Frame>, mem: Memory, owner: Owners)
    requires Ok(free, mem, owner) && free != []
    ensures Ok(free[1..], mem, owner) && InHand(free[1..], mem, owner, free[0]) && free == [free[0]] + free[1..]
  {
    assert free[0] in free;
    forall i | 0 <= i < |free[1..]| ensures free[1..][i] != free[0] && free[1..][i] in free {
      assert free[1..][i] == free[i + 1];
    }
  }

  /** Everything that does not belong to directory d is as it was. */
  ghost predicate OthersSame(mem: Memory, owner: Owners, mem': Memory, owner': Owners, d: Frame) {
    && (forall f :: f in owner && owner[f].dir != d ==> f in owner' && owner'[f] == owner[f])
    && (forall f :: f in owner' && owner'[f].dir != d ==> f in owner && owner[f] == owner'[f])
    && (forall f :: f in owner && owner[f].dir != d && f in mem ==> f in mem' && mem'[f] == mem[f])
  }

  /** No frame is lost or gained: free or owned before, free or owned after. */
  ghost predicate Conserved(free: seq<Frame>, owner: Owners, free': seq<Frame>, owner': Owners) {
    forall f :: f in free || f in owner <==> f in free' || f in owner'
  }

  /** The contents of user pages and of frames in hand are as they were. */
  ghost predicate BytesKept(free: seq<Frame>, mem: Memory, owner: Owners, mem': Memory) {
    && mem.Keys <= mem'.Keys
    && forall g :: g in mem && g !in free && (g in owner ==> owner[g].PageOf?) ==> mem'[g] == mem[g]
  }

  /** Owners stay; a new table comes from the free list. */
  ghost predicate RolesGrow(free: seq<Frame>, owner: Owners, owner': Owners) {
    && (forall g :: g in owner ==> g in owner' && owner'[g] == owner[g])
    && (forall g :: g in owner' && g !in owner ==> owner'[g].PageOf? || g in free)
  }

  // ---- the single steps -----------------------------------------------------------------------------------

  function Empty(): Content { Table(seq(NENTRIES, i => Absent)) }

  function SetEntry(mem: Memory, t: Frame, i: nat, e: Pte): Memory {
    if t in mem && mem[t].Table? && i < |mem[t].entries| then mem[t := Table(mem[t].entries[i := e])] else mem
  }

  /** walkpgdir puts an empty table behind directory entry i: no page changes, in any directory. */
  lemma AddTableGet(free: seq<Frame>, mem: Memory, owner: Owners, d: Frame, i: nat, t: Frame, flags: nat, e: Frame,
                    v: nat)
    requires Ok(free, mem, owner) && IsDir(owner, d) && i < NENTRIES && Entry(mem, d, i).Absent?
    requires InHand(free, mem, owner, t) && IsDir(owner, e) && v < LAST
    ensures Get(SetEntry(mem[t := Empty()], d, i, Pte(t, flags)), e, v) == Get(mem, e, v)
  {
  }

  lemma AddTable(free: seq<Frame>, mem: Memory, owner: Owners, d: Frame, i: nat, t: Frame)
    requires Ok(free, mem, owner) && IsDir(owner, d) && i < NENTRIES && Entry(mem, d, i).Absent?
    requires InHand(free, mem, owner, t)
    ensures var mem' := SetEntry(mem[t := Empty()], d, i, Pte(t, WU));
            && Ok(free, mem', owner[t := TableOf(d, i)])
            && OthersSame(mem, owner, mem', owner[t := TableOf(d, i)], d)
            && Entry(mem', d, i) == Pte(t, WU)
            && (forall j: nat :: j != i ==> Entry(mem', d, j) == Entry(mem, d, j))
  {
    var flags := WU;
    var mem', owner' := SetEntry(mem[t := Empty()], d, i, Pte(t, flags)), owner[t := TableOf(d, i)];
    assert RoleOk(mem, owner, d);
    forall e, v: nat | IsDir(owner, e) && v < USER ensures Get(mem', e, v) == Get(mem, e, v) {
      AddTableGet(free, mem, owner, d, i, t, flags, e, v);
    }
    forall e, j: nat | IsDir(owner, e) && (e != d || j != i) ensures Entry(mem', e, j) == Entry(mem, e, j) {
    }
    forall f | f in owner' ensures RoleOk(mem', owner', f) {
      assert f != t ==> RoleOk(mem, owner, f);
    }
  }

  lemma TableBehind(free: seq<Frame>, mem: Memory, owner: Owners, d: Frame, v: nat)
    requires Ok(free, mem, owner) && IsDir(owner, d) && v < LAST && Entry(mem, d, v / NENTRIES).Pte?
    ensures var t := Entry(mem, d, v / NENTRIES).frame;
            && t in owner && owner[t] == TableOf(d, v / NENTRIES) && IsTable(mem, t)
            && Get(mem, d, v) == mem[t].entries[v % NENTRIES] == Entry(mem, t, v % NENTRIES)
  {
  }

  /** The directory never takes away what a page's own entry allows. */
  lemma HardwareIs(free: seq<Frame>, mem: Memory, owner: Owners, d: Frame, v: nat)
    requires Ok(free, mem, owner) && IsDir(owner, d) && v < LAST
    ensures Hardware(mem, d, v) == match Get(mem, d, v)
                                   case Absent => Fault
                                   case Pte(f, flags) => Reach(f, AllowsWrite(flags), AllowsUser(flags))
  {
    assert AllowsWrite(WU) && AllowsUser(WU);
    if Entry(mem, d, v / NENTRIES).Pte? {
      TableBehind(free, mem, owner, d, v);
      assert Entry(mem, d, v / NENTRIES).flags == WU;
    }
  }

  // ---- the tables of a directory -------------------------------------------------------------------

  /** The directory entries with a page table behind them. */
  ghost function Present(mem: Memory, d: Frame): set<nat> { set i: nat | i < NENTRIES && Entry(mem, d, i).Pte? }

  /** The directory entries that n pages from `first` on go through. */
  function Indices(first: nat, n: nat): set<nat> {
    if n == 0 then {} else Indices(first, n - 1) + {(first + n - 1) / NENTRIES}
  }

  lemma IndicesNext(first: nat, n: nat)
    ensures Indices(first, n + 1) == Indices(first, n) + {(first + n) / NENTRIES} && Indices(first, 0) == {}
  {
  }

  lemma {:induction false} IndicesGrow(first: nat, n: nat, m: nat)
    requires n <= m
    ensures Indices(first, n) <= Indices(first, m)
  {
    if n < m {
      IndicesGrow(first, n, m - 1);
      IndicesNext(first, m - 1);
    }
  }

  /** n pages from `first` on got their tables, and every frame that left the free list became one of them. */
  ghost predicate Paid(free: seq<Frame>, mem: Memory, free': seq<Frame>, mem': Memory, d: Frame, first: nat, n: nat) {
    && Present(mem', d) == Present(mem, d) + Indices(first, n)
    && |free'| + |Present(mem', d)| == |free| + |Present(mem, d)|
  }

  lemma PaidMore(free: seq<Frame>, mem: Memory, free1: seq<Frame>, mem1: Memory, free2: seq<Frame>, mem2: Memory,
                 d: Frame, first: nat, n: nat, k: nat)
    requires Paid(free, mem, free1, mem1, d, first, n) && Paid(free1, mem1, free2, mem2, d, first + n, k) && k <= 1
    ensures Paid(free, mem, free2, mem2, d, first, n + k)
  {
    hide Present, Indices;
    IndicesNext(first, n);
    IndicesNext(first + n, 0);
  }

  /** Frames for n pages from `first` on: the pages themselves, and the tables d does not have yet. */
  ghost function Need(mem: Memory, d: Frame, first: nat, n: nat): nat { n + |Indices(first, n) - Present(mem, d)| }

  /** As Paid, with n more frames for the pages. */
  ghost predicate PaidPages(free: seq<Frame>, mem: Memory, free': seq<Frame>, mem': Memory, d: Frame, first: nat,
                            n: nat)
  {
    && Present(mem', d) == Present(mem, d) + Indices(first, n)
    && |free'| + |Present(mem', d)| + n == |free| + |Present(mem, d)|
  }

  lemma UnionSize(a: set<nat>, b: set<nat>)
    ensures |a + b| == |a| + |b - a|
  {
    assert a + b == a + (b - a);
  }

  lemma SubsetSize(a: set<nat>, b: set<nat>)
    requires a <= b
    ensures |a| <= |b|
  {
    assert b == a + (b - a);
  }

  lemma NeedIsPaid(free: seq<Frame>, mem: Memory, free': seq<Frame>, mem': Memory, d: Frame, first: nat, n: nat)
    requires PaidPages(free, mem, free', mem', d, first, n)
    ensures |free| == |free'| + Need(mem, d, first, n)
  {
    hide Present, Indices;
    UnionSize(Present(mem, d), Indices(first, n));
  }

  lemma PaidOnePage(free: seq<Frame>, mem: Memory, free1: seq<Frame>, mem1: Memory, free2: seq<Frame>, mem2: Memory,
                    d: Frame, first: nat, n: nat)
    requires PaidPages(free, mem, free1, mem1, d, first, n) && PaidPages(free1, mem1, free2, mem2, d, first + n, 1)
    ensures PaidPages(free, mem, free2, mem2, d, first, n + 1)
  {
    hide Present, Indices;
    IndicesNext(first, n);
    IndicesNext(first + n, 0);
  }

  lemma NoPagesPaid(free: seq<Frame>, mem: Memory, d: Frame, first: nat)
    ensures PaidPages(free, mem, free, mem, d, first, 0)
  {
    hide Present;
  }

  /** Too little for the next page is too little for all of them. */
  lemma ShortOfAll(free: seq<Frame>, mem: Memory, free1: seq<Frame>, mem1: Memory, d: Frame, first: nat, n: nat, m: nat)
    requires PaidPages(free, mem, free1, mem1, d, first, n) && n < m
    requires |free1| < Need(mem1, d, first + n, 1)
    ensures |free| < Need(mem, d, first, m)
  {
    hide Present, Indices;
    IndicesNext(first, n);
    IndicesNext(first + n, 0);
    var i := (first + n) / NENTRIES;
    UnionSize(Present(mem1, d), {i});
    UnionSize(Present(mem, d), Indices(first, n + 1));
    assert Present(mem1, d) + {i} == Present(mem, d) + Indices(first, n + 1);
    assert |free| < Need(mem, d, first, n + 1);
    NeedGrows(mem, d, first, n + 1, m);
  }

  lemma {:induction false} NeedGrows(mem: Memory, d: Frame, first: nat, n: nat, m: nat)
    requires n <= m
    ensures Need(mem, d, first, n) <= Need(mem, d, first, m)
    decreases m - n
  {
    hide Present, Indices;
    if n < m {
      IndicesNext(first, n);
      SubsetSize(Indices(first, n) - Present(mem, d), Indices(first, n + 1) - Present(mem, d));
      NeedGrows(mem, d, first, n + 1, m);
    }
  }

  /** What walkpgdir takes for the table of page v: nothing when the page was there already. */
  lemma WalkPaid(free: seq<Frame>, mem: Memory, free': seq<Frame>, mem': Memory, d: Frame, v: nat, ok: bool)
    requires v < LAST && Present(mem', d) == Present(mem, d) + if ok then {v / NENTRIES} else {}
    requires |free'| + |Present(mem', d)| == |free| + |Present(mem, d)|
    ensures Paid(free, mem, free', mem', d, v, if ok then 1 else 0)
    ensures Get(mem, d, v).Pte? ==> Paid(free, mem, free', mem', d, v, 0)
  {
    hide Indices;
    IndicesNext(v, 0);
    assert Get(mem, d, v).Pte? ==> v / NENTRIES in Present(mem, d);
    hide Present;
  }

  lemma PaidNothing(free: seq<Frame>, mem: Memory, d: Frame, first: nat)
    ensures Paid(free, mem, free, mem, d, first, 0)
  {
    hide Present;
  }

  lemma SamePresent(mem: Memory, mem': Memory, d: Frame)
    requires forall i: nat :: i < NENTRIES ==> Entry(mem', d, i) == Entry(mem, d, i)
    ensures Present(mem', d) == Present(mem, d)
  {
  }

  lemma OneMorePresent(mem: Memory, mem': Memory, d: Frame, i: nat)
    requires i < NENTRIES && Entry(mem, d, i).Absent? && Entry(mem', d, i).Pte?
    requires forall j: nat :: j != i ==> Entry(mem', d, j) == Entry(mem, d, j)
    ensures Present(mem', d) == Present(mem, d) + {i} && |Present(mem', d)| == |Present(mem, d)| + 1
  {
    assert Present(mem', d) == Present(mem, d) + {i};
    assert i !in Present(mem, d);
  }

  lemma AllAsBefore(free: seq<Frame>, mem: Memory, owner: Owners, d: Frame)
    ensures OthersSame(mem, owner, mem, owner, d) && BytesKept(free, mem, owner, mem)
    ensures Conserved(free, owner, free, owner) && RolesGrow(free, owner, owner)
  {
  }

  /** All that changes when frame t, just taken from the free list, becomes the table behind entry i. */
  lemma TableAdded(free: seq<Frame>, mem: Memory, owner: Owners, d: Frame, i: nat, t: Frame)
    requires Ok(free, mem, owner) && IsDir(owner, d) && i < NENTRIES && Entry(mem, d, i).Absent?
    requires InHand(free, mem, owner, t)
    ensures var mem', owner' := SetEntry(mem[t := Empty()], d, i, Pte(t, WU)), owner[t := TableOf(d, i)];
            && Ok(free, mem', owner') && IsDir(owner', d) && OthersSame(mem, owner, mem', owner', d)
            && BytesKept([t] + free, mem, owner, mem')
            && Conserved([t] + free, owner, free, owner') && RolesGrow([t] + free, owner, owner')
            && (forall u: nat :: u < LAST ==> Get(mem', d, u) == Get(mem, d, u))
            && Entry(mem', d, i) == Pte(t, WU)
            && Present(mem', d) == Present(mem, d) + {i} && |Present(mem', d)| == |Present(mem, d)| + 1
  {
    hide SetEntry, Get, Ok, Empty, OthersSame, BytesKept, Conserved, RolesGrow, Present, Entry;
    var mem' := SetEntry(mem[t := Empty()], d, i, Pte(t, WU));
    AddTable(free, mem, owner, d, i, t);
    forall u: nat | u < LAST ensures Get(mem', d, u) == Get(mem, d, u) {
      AddTableGet(free, mem, owner, d, i, t, WU, d, u);
    }
    OneMorePresent(mem, mem', d, i);
    SetEntryElsewhere(mem[t := Empty()], d, i, Pte(t, WU));
    AddedFrames(free, mem, owner, mem', d, i, t);
  }

  lemma AddedFrames(free: seq<Frame>, mem: Memory, owner: Owners, mem': Memory, d: Frame, i: nat, t: Frame)
    requires IsDir(owner, d) && t !in owner && t !in free && mem.Keys <= mem'.Keys
    requires forall g :: g in mem && g != d && g != t ==> mem'[g] == mem[g]
    ensures var owner' := owner[t := TableOf(d, i)];
            && BytesKept([t] + free, mem, owner, mem')
            && Conserved([t] + free, owner, free, owner') && RolesGrow([t] + free, owner, owner')
  {
    forall g ensures g in [t] + free <==> g == t || g in free {
      assert ([t] + free)[0] == t;
    }
  }

  /** Writing one entry of one page table changes that page and no other, in any directory. */
  lemma SetEntryGet(free: seq<Frame>, mem: Memory, owner: Owners, d: Frame, v: nat, p: Pte, e: Frame, u: nat)
    requires Ok(free, mem, owner) && IsDir(owner, d) && v < LAST && Entry(mem, d, v / NENTRIES).Pte?
    requires IsDir(owner, e) && u < LAST
    ensures var mem' := SetEntry(mem, Entry(mem, d, v / NENTRIES).frame, v % NENTRIES, p);
            Get(mem', e, u) == if e == d && u == v then p else Get(mem, e, u)
  {
    TableBehind(free, mem, owner, d, v);
    assert RoleOk(mem, owner, e);
    if Entry(mem, e, u / NENTRIES).Pte? {
      TableBehind(free, mem, owner, e, u);
    }
  }

  function Taking(owner: Owners, d: Frame, v: nat, f: Frame): Owners {
    if v < USER then owner[f := PageOf(d, v)] else owner
  }

  /** A page is mapped where none was. */
  lemma SetPage(free: seq<Frame>, mem: Memory, owner: Owners, d: Frame, v: nat, f: Frame, flags: nat)
    requires Ok(free, mem, owner) && IsDir(owner, d) && v < LAST && Entry(mem, d, v / NENTRIES).Pte?
    requires Get(mem, d, v).Absent?
    requires v < USER ==> InHand(free, mem, owner, f) && mem[f].Bytes?
    ensures var mem' := SetEntry(mem, Entry(mem, d, v / NENTRIES).frame, v % NENTRIES, Pte(f, flags));
            && Ok(free, mem', Taking(owner, d, v, f))
            && OthersSame(mem, owner, mem', Taking(owner, d, v, f), d)
            && (forall u: nat :: u < LAST ==> Get(mem', d, u) == if u == v then Pte(f, flags) else Get(mem, d, u))
            && (forall j: nat :: Entry(mem', d, j) == Entry(mem, d, j))
  {
    var t := Entry(mem, d, v / NENTRIES).frame;
    var mem', owner' := SetEntry(mem, t, v % NENTRIES, Pte(f, flags)), Taking(owner, d, v, f);
    TableBehind(free, mem, owner, d, v);
    assert RoleOk(mem, owner, d);
    forall e, u: nat | IsDir(owner, e) && u < LAST
      ensures Get(mem', e, u) == if e == d && u == v then Pte(f, flags) else Get(mem, e, u)
    {
      SetEntryGet(free, mem, owner, d, v, Pte(f, flags), e, u);
    }
    forall e, j: nat | IsDir(owner, e) ensures Entry(mem', e, j) == Entry(mem, e, j) {
    }
    forall g | g in owner' ensures RoleOk(mem', owner', g) {
      assert (v < USER && g == f) || RoleOk(mem, owner, g);
    }
  }

  /** A user page is unmapped and its frame handed back. */
  lemma ClearPage(free: seq<Frame>, mem: Memory, owner: Owners, d: Frame, v: nat)
    requires Ok(free, mem, owner) && IsDir(owner, d) && v < USER && Get(mem, d, v).Pte?
    ensures var f := Get(mem, d, v).frame;
            var mem' := SetEntry(mem[f := Junk], Entry(mem, d, v / NENTRIES).frame, v % NENTRIES, Absent);
            && f in owner && owner[f] == PageOf(d, v)
            && Ok([f] + free, mem', owner - {f})
            && OthersSame(mem, owner, mem', owner - {f}, d)
            && (forall u: nat :: u < LAST ==> Get(mem', d, u) == if u == v then Absent else Get(mem, d, u))
  {
    var f, t := Get(mem, d, v).frame, Entry(mem, d, v / NENTRIES).frame;
    TableBehind(free, mem, owner, d, v);
    assert owner[f] == PageOf(d, v) && RoleOk(mem, owner, f) && RoleOk(mem, owner, d);
    var mem1 := SetEntry(mem, t, v % NENTRIES, Absent);
    var mem', owner' := SetEntry(mem[f := Junk], t, v % NENTRIES, Absent), owner - {f};
    assert mem' == mem1[f := Junk];
    forall e, u: nat | IsDir(owner, e) && u < LAST
      ensures Get(mem', e, u) == if e == d && u == v then Absent else Get(mem, e, u)
    {
      SetEntryGet(free, mem, owner, d, v, Absent, e, u);
      assert RoleOk(mem, owner, e);
      if Entry(mem, e, u / NENTRIES).Pte? { TableBehind(free, mem, owner, e, u); }
    }
    forall e, j: nat | IsDir(owner, e) ensures Entry(mem', e, j) == Entry(mem, e, j) {
      assert RoleOk(mem, owner, e);
    }
    forall g | g in owner' ensures RoleOk(mem', owner', g) {
      assert RoleOk(mem, owner, g);
    }
  }

  // ---- unmapping ranges --------------------------------------------------------------------------------

  predicate Within(r: Role, d: Frame, lo: nat, hi: nat) { r.PageOf? && r.dir == d && lo <= r.page < hi }

  /** Pages lo up to hi of d are gone, their frames free; every other page and byte is as it was. */
  ghost predicate Unmapped(free: seq<Frame>, mem: Memory, owner: Owners, free': seq<Frame>, mem': Memory,
                           owner': Owners, d: Frame, lo: nat, hi: nat)
  {
    && OthersSame(mem, owner, mem', owner', d)
    && (forall u: nat :: u < LAST ==> Get(mem', d, u) == if lo <= u < hi then Absent else Get(mem, d, u))
    && owner' == (map g | g in owner && !Within(owner[g], d, lo, hi) :: owner[g])
    && (forall g :: g in free' <==> g in free || (g in owner && Within(owner[g], d, lo, hi)))
    && mem.Keys <= mem'.Keys
    && (forall g :: g in mem && g !in free' && (g in owner ==> owner[g].PageOf?) ==> mem'[g] == mem[g])
  }

  lemma UnmapOne(free: seq<Frame>, mem: Memory, owner: Owners, d: Frame, v: nat)
    requires Ok(free, mem, owner) && IsDir(owner, d) && v < USER && Get(mem, d, v).Pte?
    ensures var t := Entry(mem, d, v / NENTRIES).frame;
            var f := Entry(mem, t, v % NENTRIES).frame;
            var mem' := SetEntry(mem[f := Junk], t, v % NENTRIES, Absent);
            && Entry(mem, t, v % NENTRIES).Pte? && f > 0 && f in owner
            && Ok([f] + free, mem', owner - {f}) && IsDir(owner - {f}, d)
            && Unmapped(free, mem, owner, [f] + free, mem', owner - {f}, d, v, v + 1)
  {
    hide SetEntry, OthersSame;
    ClearPage(free, mem, owner, d, v);
    var t := Entry(mem, d, v / NENTRIES).frame;
    var f := Entry(mem, t, v % NENTRIES).frame;
    var mem' := SetEntry(mem[f := Junk], t, v % NENTRIES, Absent);
    SetEntryElsewhere(mem[f := Junk], t, v % NENTRIES, Absent);
    TableBehind(free, mem, owner, d, v);
    assert RoleOk(mem, owner, f);
    forall g | g in owner && Within(owner[g], d, v, v + 1) ensures g == f {
      assert RoleOk(mem, owner, g);
    }
    assert owner - {f} == map g | g in owner && !Within(owner[g], d, v, v + 1) :: owner[g];
  }

  lemma SetEntryElsewhere(mem: Memory, t: Frame, i: nat, p: Pte)
    ensures mem.Keys <= SetEntry(mem, t, i, p).Keys
    ensures forall g :: g in mem && g != t ==> SetEntry(mem, t, i, p)[g] == mem[g]
  {
  }

  lemma UnmapNothing(free: seq<Frame>, mem: Memory, owner: Owners, d: Frame, lo: nat)
    ensures Unmapped(free, mem, owner, free, mem, owner, d, lo, lo)
  {
  }

  lemma UnmapMore(free: seq<Frame>, mem: Memory, owner: Owners, free1: seq<Frame>, mem1: Memory, owner1: Owners,
                  free2: seq<Frame>, mem2: Memory, owner2: Owners, d: Frame, lo: nat, mid: nat, hi: nat)
    requires Unmapped(free, mem, owner, free1, mem1, owner1, d, lo, mid) && lo <= mid <= hi
    requires Unmapped(free1, mem1, owner1, free2, mem2, owner2, d, mid, hi)
    ensures Unmapped(free, mem, owner, free2, mem2, owner2, d, lo, hi)
  {
    OthersTwice(mem, owner, mem1, owner1, mem2, owner2, d);
    hide OthersSame, Get;
  }

  /** Pages that are absent anyway. */
  lemma UnmapAbsent(free: seq<Frame>, mem: Memory, owner: Owners, d: Frame, lo: nat, hi: nat)
    requires Ok(free, mem, owner) && IsDir(owner, d) && forall u: nat :: lo <= u < hi ==> Get(mem, d, u).Absent?
    ensures Unmapped(free, mem, owner, free, mem, owner, d, lo, hi)
  {
  }

  /** Where the directory has no table, no page up to the next table is present: deallocuvm may skip them. */
  lemma SkipIsSafe(mem: Memory, d: Frame, v: nat, u: nat)
    requires Entry(mem, d, v / NENTRIES).Absent? && v <= u < (v / NENTRIES + 1) * NENTRIES
    ensures Get(mem, d, u).Absent?
  {
    assert u / NENTRIES == v / NENTRIES;
  }

  /** Frames nobody owns may hold anything. */
  lemma SameOwned(free: seq<Frame>, mem: Memory, owner: Owners, mem': Memory)
    requires Ok(free, mem, owner) && mem.Keys <= mem'.Keys && forall f :: f in owner && f in mem ==> mem'[f] == mem[f]
    ensures Ok(free, mem', owner)
    ensures forall d, v: nat :: IsDir(owner, d) && v < LAST ==> Get(mem', d, v) == Get(mem, d, v)
    ensures forall d, i: nat :: IsDir(owner, d) ==> Entry(mem', d, i) == Entry(mem, d, i)
  {
    forall d, i: nat | IsDir(owner, d) ensures Entry(mem', d, i) == Entry(mem, d, i) {
      assert RoleOk(mem, owner, d);
    }
    forall d, v: nat | IsDir(owner, d) && v < LAST ensures Get(mem', d, v) == Get(mem, d, v) {
      if Entry(mem, d, v / NENTRIES).Pte? { TableBehind(free, mem, owner, d, v); }
    }
    forall f | f in owner ensures RoleOk(mem', owner, f) {
      assert RoleOk(mem, owner, f);
    }
  }

  /** The owners left when directory d is forgotten. */
  function Without(owner: Owners, d: Frame): Owners { map f | f in owner && owner[f].dir != d :: owner[f] }

  lemma ForgetDir(free: seq<Frame>, mem: Memory, owner: Owners, d: Frame)
    requires Ok(free, mem, owner)
    ensures Ok(free, mem, Without(owner, d))
  {
    forall f | f in Without(owner, d) ensures RoleOk(mem, Without(owner, d), f) {
      assert RoleOk(mem, owner, f);
    }
  }

  ghost predicate NoPages(mem: Memory, d: Frame) { forall v: nat :: v < LAST ==> Get(mem, d, v) == Absent }

  lemma AddRoot(free: seq<Frame>, mem: Memory, owner: Owners, d: Frame)
    requires Ok(free, mem, owner) && InHand(free, mem, owner, d)
    ensures Ok(free, mem[d := Empty()], owner[d := Root(d)])
    ensures OthersSame(mem, owner, mem[d := Empty()], owner[d := Root(d)], d)
    ensures NoPages(mem[d := Empty()], d)
  {
    var mem', owner' := mem[d := Empty()], owner[d := Root(d)];
    EmptyDir(mem, d);
    SameOwned(free, mem, owner, mem');
    hide Get, NoPages;
    forall f | f in owner ensures owner[f].dir != d {
      assert RoleOk(mem, owner, f);
    }
    forall f | f in owner' ensures RoleOk(mem', owner', f) {
      assert f != d ==> RoleOk(mem', owner, f);
    }
  }

  lemma EmptyDir(mem: Memory, d: Frame)
    ensures NoPages(mem[d := Empty()], d)
  {
  }

  lemma OthersTwice(m0: Memory, o0: Owners, m1: Memory, o1: Owners, m2: Memory, o2: Owners, d: Frame)
    requires OthersSame(m0, o0, m1, o1, d) && OthersSame(m1, o1, m2, o2, d)
    ensures OthersSame(m0, o0, m2, o2, d)
  {
  }

  /** Directory d is gone: its frames and no others have become free. */
  ghost predicate Freed(free: seq<Frame>, mem: Memory, owner: Owners, free': seq<Frame>, mem': Memory, owner': Owners,
                        d: Frame)
  {
    && owner' == Without(owner, d)
    && (forall g :: g in free' <==> g in free || (g in owner && owner[g].dir == d))
    && OthersSame(mem, owner, mem', owner', d)
    && mem.Keys <= mem'.Keys && forall g :: g in mem && g !in free' && g !in owner ==> mem'[g] == mem[g]
  }

  /** The frames of d's tables behind entries below n, freed on top of a state without d's pages. */
  ghost predicate TablesFreed(free: seq<Frame>, mem: Memory, owner: Owners, free': seq<Frame>, mem': Memory, d: Frame,
                              n: nat)
  {
    && (forall g :: g in free' <==>
          g in free || (g in owner && owner[g].TableOf? && owner[g].dir == d && owner[g].pdx < n))
    && mem.Keys <= mem'.Keys && forall g :: g in mem && g !in free' ==> mem'[g] == mem[g]
  }

  lemma NextTable(free: seq<Frame>, mem: Memory, owner: Owners, free': seq<Frame>, mem': Memory, d: Frame, n: nat)
    requires Ok(free, mem, owner) && IsDir(owner, d) && n < NENTRIES && TablesFreed(free, mem, owner, free', mem', d, n)
    ensures Entry(mem', d, n) == Entry(mem, d, n)
    ensures Entry(mem, d, n).Pte? ==>
              var t := Entry(mem, d, n).frame;
              && InHand(free', mem', Without(owner, d), t)
              && TablesFreed(free, mem, owner, [t] + free', mem'[t := Junk], d, n + 1)
    ensures Entry(mem, d, n).Absent? ==> TablesFreed(free, mem, owner, free', mem', d, n + 1)
  {
  }

  /** The frames of d: its pages, its tables, and itself. */
  lemma AllOf(free: seq<Frame>, mem: Memory, owner: Owners, d: Frame, g: Frame)
    requires Ok(free, mem, owner) && g in owner && owner[g].dir == d
    ensures g == d || (owner[g].TableOf? && owner[g].pdx < NENTRIES) || Within(owner[g], d, 0, USER)
  {
  }

  /** Pages, then tables, then the directory: all of d. */
  lemma AllFreedFrames(free: seq<Frame>, mem: Memory, owner: Owners, free1: seq<Frame>, mem1: Memory, owner1: Owners,
                       free2: seq<Frame>, mem2: Memory, d: Frame)
    requires Ok(free, mem, owner) && IsDir(owner, d)
    requires Unmapped(free, mem, owner, free1, mem1, owner1, d, 0, USER)
    requires TablesFreed(free1, mem1, owner1, free2, mem2, d, NENTRIES)
    ensures d !in free2 && d in mem && d in mem2 && Without(owner1, d) == Without(owner, d)
    ensures forall g :: g in [d] + free2 <==> g in free || (g in owner && owner[g].dir == d)
  {
    hide OthersSame, Get, Ok;
    DirFrame(free, mem, owner, d);
    WithoutPages(owner, d);
    forall g ensures g in [d] + free2 <==> g in free || (g in owner && owner[g].dir == d) {
      if g in owner && owner[g].dir == d {
        AllOf(free, mem, owner, d, g);
      }
    }
  }

  lemma WithoutPages(owner: Owners, d: Frame)
    ensures Without(map g | g in owner && !Within(owner[g], d, 0, USER) :: owner[g], d) == Without(owner, d)
  {
  }

  lemma DirFrame(free: seq<Frame>, mem: Memory, owner: Owners, d: Frame)
    requires Ok(free, mem, owner) && IsDir(owner, d)
    ensures d in mem && d !in free
  {
    assert RoleOk(mem, owner, d);
  }

  lemma AllFreed(free: seq<Frame>, mem: Memory, owner: Owners, free1: seq<Frame>, mem1: Memory, owner1: Owners,
                 free2: seq<Frame>, mem2: Memory, d: Frame)
    requires Ok(free, mem, owner) && IsDir(owner, d)
    requires Ok(free1, mem1, owner1) && Unmapped(free, mem, owner, free1, mem1, owner1, d, 0, USER)
    requires TablesFreed(free1, mem1, owner1, free2, mem2, d, NENTRIES)
    ensures d !in free2 && d in mem2 && Freed(free, mem, owner, [d] + free2, mem2[d := Junk], Without(owner1, d), d)
  {
    hide Ok, Get, Unmapped, TablesFreed, OthersSame;
    AllFreedFrames(free, mem, owner, free1, mem1, owner1, free2, mem2, d);
    AllFreedBytes(free, mem, owner, free1, mem1, owner1, free2, mem2, d);
    FreedParts(mem, owner, mem2[d := Junk], d);
  }

  lemma AllFreedBytes(free: seq<Frame>, mem: Memory, owner: Owners, free1: seq<Frame>, mem1: Memory, owner1: Owners,
                      free2: seq<Frame>, mem2: Memory, d: Frame)
    requires Ok(free, mem, owner) && IsDir(owner, d)
    requires Unmapped(free, mem, owner, free1, mem1, owner1, d, 0, USER)
    requires TablesFreed(free1, mem1, owner1, free2, mem2, d, NENTRIES)
    ensures mem.Keys <= mem2.Keys
    ensures forall g :: g in mem && g != d && g !in free2 && (g in owner ==> owner[g].dir != d) ==> mem2[g] == mem[g]
    ensures forall g :: g in owner && owner[g].dir != d ==> g != d && g !in free2
  {
  }

  lemma FreedParts(mem: Memory, owner: Owners, mem': Memory, d: Frame)
    requires mem.Keys <= mem'.Keys
    requires forall g :: g in owner && owner[g].dir != d && g in mem ==> mem'[g] == mem[g]
    ensures OthersSame(mem, owner, mem', Without(owner, d), d)
  {
  }

  lemma NoTableYet(free: seq<Frame>, mem: Memory, owner: Owners, d: Frame)
    ensures TablesFreed(free, mem, owner, free, mem, d, 0)
  {
  }

  lemma RootInHand(free: seq<Frame>, mem: Memory, owner: Owners, free': seq<Frame>, mem': Memory, d: Frame)
    requires Ok(free, mem, owner) && IsDir(owner, d) && TablesFreed(free, mem, owner, free', mem', d, NENTRIES)
    ensures InHand(free', mem', Without(owner, d), d)
  {
  }
}
