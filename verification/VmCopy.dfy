/** setupkvm and copyuvm: a new directory built beside the others, or no trace of one. */
module VmCopy {
  import opened Params
  import opened VmSpec
  import opened Vm

  /** A range of kernel addresses and the frame its first page maps to. */
  datatype Region = Region(va: nat, size: nat, frame: Frame, perm: nat)

  predicate KernelOnly(kmap: seq<Region>) {
    forall i :: 0 <= i < |kmap| ==> kmap[i].size > 0 && KERNBASE <= kmap[i].va && kmap[i].va + kmap[i].size <= TWO32
  }

  /** The directory entries the regions go through, each of which takes a page table. */
  function Tables(kmap: seq<Region>): set<nat> {
    if kmap == [] then {}
    else
      var r := kmap[|kmap| - 1];
      Tables(kmap[..|kmap| - 1]) + Indices(r.va / PGSIZE, Covered(r.va, r.size))
  }

  lemma {:induction false} TablesNext(kmap: seq<Region>, k: nat)
    requires k < |kmap|
    ensures Tables(kmap[..k]) + Indices(kmap[k].va / PGSIZE, Covered(kmap[k].va, kmap[k].size)) == Tables(kmap[..k + 1])
    ensures Tables(kmap[..k + 1]) <= Tables(kmap) && Tables(kmap[..0]) == {}
    decreases |kmap| - k
  {
    hide Indices, Covered;
    assert kmap[..k + 1][..k] == kmap[..k];
    if k + 1 < |kmap| {
      TablesNext(kmap, k + 1);
    } else {
      assert kmap[..k + 1] == kmap;
    }
  }

  /** The frames a copy of that many user pages takes: the directory, each table once, and the pages. */
  function CopyFrames(kmap: seq<Region>, pages: nat): nat { 1 + |Tables(kmap) + Indices(0, pages)| + pages }

  /** Out of frames in region k, before the table of its page n. */
  lemma ShortOfTables(mem: Memory, d: Frame, kmap: seq<Region>, k: nat, n: nat)
    requires k < |kmap| && n < Covered(kmap[k].va, kmap[k].size)
    requires Present(mem, d) == Tables(kmap[..k]) + Indices(kmap[k].va / PGSIZE, n)
    requires (kmap[k].va / PGSIZE + n) / NENTRIES !in Present(mem, d)
    ensures |Present(mem, d)| < |Tables(kmap)|
  {
    hide Present, Tables, Indices;
    var first := kmap[k].va / PGSIZE;
    TablesNext(kmap, k);
    IndicesNext(first, n);
    IndicesGrow(first, n + 1, Covered(kmap[k].va, kmap[k].size));
    var i := (first + n) / NENTRIES;
    assert Present(mem, d) + {i} <= Tables(kmap);
    SubsetSize(Present(mem, d) + {i}, Tables(kmap));
  }

  lemma EnoughForCopy(kmap: seq<Region>, mem: Memory, d: Frame, pages: nat)
    requires Present(mem, d) == Tables(kmap)
    ensures 1 + |Tables(kmap)| + Need(mem, d, 0, pages) == CopyFrames(kmap, pages)
  {
    hide Present, Tables, Indices;
    UnionSize(Tables(kmap), Indices(0, pages));
  }

  ghost predicate InRegion(r: Region, u: nat) { r.va / PGSIZE <= u < r.va / PGSIZE + Covered(r.va, r.size) }

  function PageIn(r: Region, u: nat): Pte
    requires r.va / PGSIZE <= u
  {
    Pte(r.frame + (u - r.va / PGSIZE), r.perm)
  }

  /** The kernel half of d maps the regions, page for page, and nothing else. */
  ghost predicate KernelIs(mem: Memory, d: Frame, kmap: seq<Region>) {
    && (forall i: nat, u: nat :: i < |kmap| && InRegion(kmap[i], u) ==> Get(mem, d, u) == PageIn(kmap[i], u))
    && (forall u: nat :: USER <= u < LAST && Get(mem, d, u).Pte? ==> Covering(kmap, u))
  }

  ghost predicate Covering(kmap: seq<Region>, u: nat) { exists i: nat :: i < |kmap| && InRegion(kmap[i], u) }

  /** Two of the regions have a page in common. */
  ghost predicate SharePage(kmap: seq<Region>) {
    exists i: nat, j: nat, u: nat :: i < j < |kmap| && InRegion(kmap[i], u) && InRegion(kmap[j], u)
  }

  lemma RegionIsKernel(kmap: seq<Region>, i: nat, u: nat)
    requires i < |kmap| && KernelOnly(kmap) && InRegion(kmap[i], u)
    ensures USER <= u < LAST
  {
  }

  /** A page that mappages found taken lies in an earlier region. */
  lemma TakenTwice(mem: Memory, d: Frame, kmap: seq<Region>, k: nat, u: nat)
    requires k < |kmap| && KernelOnly(kmap) && KernelIs(mem, d, kmap[..k])
    requires InRegion(kmap[k], u) && Get(mem, d, u).Pte?
    ensures SharePage(kmap)
  {
    var i: nat :| i < k && InRegion(kmap[..k][i], u);
  }

  lemma RegionMapped(free: seq<Frame>, mem: Memory, owner: Owners, free': seq<Frame>, mem': Memory, owner': Owners,
                     d: Frame, kmap: seq<Region>, k: nat)
    requires k < |kmap| && KernelOnly(kmap) && KernelIs(mem, d, kmap[..k]) && !SharePage(kmap[..k])
    requires MappedRange(free, mem, owner, free', mem', owner', d, kmap[k].va / PGSIZE,
                         Covered(kmap[k].va, kmap[k].size), kmap[k].frame, kmap[k].perm)
    ensures KernelIs(mem', d, kmap[..k + 1]) && !SharePage(kmap[..k + 1])
  {
    hide Get, OthersSame, BytesKept, RolesGrow, Handed;
    var before, after := kmap[..k], kmap[..k + 1];
    forall i: nat, u: nat | i < |after| && InRegion(after[i], u) ensures Get(mem', d, u) == PageIn(after[i], u) {
      RegionIsKernel(kmap, i, u);
      if i < k {
        assert InRegion(before[i], u) && before[i] == after[i];
        assert Get(mem, d, u) == PageIn(before[i], u);
        assert !InRegion(kmap[k], u);
      } else {
        assert after[i] == kmap[k];
      }
    }
    forall u: nat | USER <= u < LAST && Get(mem', d, u).Pte? ensures Covering(after, u) {
      if InRegion(kmap[k], u) {
        assert InRegion(after[k], u);
      } else {
        var i: nat :| i < k && InRegion(before[i], u);
        assert InRegion(after[i], u);
      }
    }
    forall i: nat, j: nat, u: nat | i < j < |after| && InRegion(after[i], u) ensures !InRegion(after[j], u) {
      RegionIsKernel(kmap, i, u);
      assert InRegion(before[i], u) && Get(mem, d, u).Pte?;
      if j < k {
        assert !InRegion(before[j], u);
      }
    }
  }

  lemma NothingKernel(mem: Memory, d: Frame, kmap: seq<Region>)
    requires NoPages(mem, d)
    ensures KernelIs(mem, d, kmap[..0]) && !SharePage(kmap[..0])
  {
  }

  // ---- building beside the others -----------------------------------------------------------------

  /** Directory d is new, and nothing but free frames went into it. */
  ghost predicate BuiltOn(free: seq<Frame>, mem: Memory, owner: Owners, free': seq<Frame>, mem': Memory,
                          owner': Owners, d: Frame)
  {
    && d in free && IsDir(owner', d)
    && OthersSame(mem, owner, mem', owner', d) && Conserved(free, owner, free', owner')
    && (forall g :: g in free' ==> g in free)
  }

  /** Nothing is left of the attempt: the same frames are free, the same pages hold the same bytes. */
  ghost predicate NoTrace(free: seq<Frame>, mem: Memory, owner: Owners, free': seq<Frame>, mem': Memory,
                          owner': Owners)
  {
    && owner' == owner && (forall g :: g in free' <==> g in free)
    && (forall g :: g in owner && g in mem ==> g in mem' && mem'[g] == mem[g])
  }

  lemma NobodysYet(free: seq<Frame>, mem: Memory, owner: Owners, d: Frame, g: Frame)
    requires Ok(free, mem, owner) && d in free && g in owner
    ensures owner[g].dir != d
  {
  }

  /** Freeing a directory that was built undoes all of the building. */
  lemma BuildingUndone(free: seq<Frame>, mem: Memory, owner: Owners, free1: seq<Frame>, mem1: Memory, owner1: Owners,
                       free2: seq<Frame>, mem2: Memory, owner2: Owners, d: Frame)
    requires Ok(free, mem, owner) && BuiltOn(free, mem, owner, free1, mem1, owner1, d)
    requires Freed(free1, mem1, owner1, free2, mem2, owner2, d)
    ensures NoTrace(free, mem, owner, free2, mem2, owner2)
  {
    forall g | g in owner ensures owner[g].dir != d {
      NobodysYet(free, mem, owner, d, g);
    }
    OthersTwice(mem, owner, mem1, owner1, mem2, owner2, d);
  }

  lemma BuiltMore(free: seq<Frame>, mem: Memory, owner: Owners, free1: seq<Frame>, mem1: Memory, owner1: Owners,
                  free2: seq<Frame>, mem2: Memory, owner2: Owners, d: Frame)
    requires BuiltOn(free, mem, owner, free1, mem1, owner1, d)
    requires OthersSame(mem1, owner1, mem2, owner2, d) && Conserved(free1, owner1, free2, owner2) && IsDir(owner2, d)
    requires forall g :: g in free2 ==> g in free1
    ensures BuiltOn(free, mem, owner, free2, mem2, owner2, d)
  {
  }

  ghost predicate NoUserPages(mem: Memory, d: Frame, lo: nat) {
    forall u: nat :: lo <= u < USER ==> Get(mem, d, u) == Absent
  }

  /** Mapping kernel pages hands over no frames. */
  lemma KernelMapped(free: seq<Frame>, mem: Memory, owner: Owners, free': seq<Frame>, mem': Memory, owner': Owners,
                     d: Frame, first: nat, n: nat, f: Frame, perm: nat)
    requires MappedRange(free, mem, owner, free', mem', owner', d, first, n, f, perm) && first >= USER
    requires NoUserPages(mem, d, 0)
    ensures OthersSame(mem, owner, mem', owner', d) && Conserved(free, owner, free', owner') && NoUserPages(mem', d, 0)
    ensures forall g :: g in free' ==> g in free
  {
  }

  method Setupkvm(m: Machine, kmap: seq<Region>) returns (r: CopyResult)
    requires m.Valid() && KernelOnly(kmap)
    modifies m
    ensures !r.NotPresent?
    ensures r.Copied? ==> m.Valid() && BuiltOn(old(m.free), old(m.mem), old(m.owner), m.free, m.mem, m.owner, r.dir)
    ensures r.Copied? ==> NoUserPages(m.mem, r.dir, 0)
    ensures r.NoMemory? ==> m.Valid() && NoTrace(old(m.free), old(m.mem), old(m.owner), m.free, m.mem, m.owner)
    ensures r.Copied? ==> |old(m.free)| == |m.free| + 1 + |Tables(kmap)| && Present(m.mem, r.dir) == Tables(kmap)
    ensures r.NoMemory? ==> |old(m.free)| < 1 + |Tables(kmap)|
    ensures r.Copied? ==> KernelIs(m.mem, r.dir, kmap) && KernelReached(m.mem, r.dir, kmap) && !SharePage(kmap)
    ensures r.KernelRemap? ==> SharePage(kmap)
  {
    hide Ok, BuiltOn, NoTrace, MappedRange, Freed, OthersSame, Conserved, NoUserPages, Get, KernelIs, SharePage,
         Present, KernelReached, Paid, Hardware, Indices, Tables, InHand, Empty;
    var ok, d := m.Kalloc();
    if !ok {
      Untouched(m.free, m.mem, m.owner);
      return NoMemory;
    }
    RootBuilt(old(m.free), m.free, m.mem, m.owner, d);
    AddRoot(m.free, m.mem, m.owner, d);
    m.mem := m.mem[d := Empty()];
    m.owner := m.owner[d := Root(d)];
    NothingKernel(m.mem, d, kmap);
    NoTables(old(m.mem), d, kmap);
    var k := 0;
    while k < |kmap|
      invariant 0 <= k <= |kmap| && m.Valid() && IsDir(m.owner, d)
      invariant BuiltOn(old(m.free), old(m.mem), old(m.owner), m.free, m.mem, m.owner, d) && NoUserPages(m.mem, d, 0)
      invariant |m.free| + 1 + |Present(m.mem, d)| == |old(m.free)| && Present(m.mem, d) == Tables(kmap[..k])
      invariant KernelIs(m.mem, d, kmap[..k]) && !SharePage(kmap[..k])
    {
      TablesNext(kmap, k);
      ghost var free1, mem1, owner1 := m.free, m.mem, m.owner;
      var region := kmap[k];
      var mapped, n := m.Mappages(d, region.va, region.size, region.frame, region.perm);
      KernelMapped(free1, mem1, owner1, m.free, m.mem, m.owner, d, region.va / PGSIZE, n, region.frame, region.perm);
      BuiltMore(old(m.free), old(m.mem), old(m.owner), free1, mem1, owner1, m.free, m.mem, m.owner, d);
      PaidIs(free1, mem1, m.free, m.mem, d, region.va / PGSIZE, n);
      if mapped.Remap? {
        TakenTwice(mem1, d, kmap, k, region.va / PGSIZE + n);
        return KernelRemap;
      }
      if mapped.OutOfMemory? {
        ShortOfTables(m.mem, d, kmap, k, n);
        ghost var free2, mem2, owner2 := m.free, m.mem, m.owner;
        m.Freevm(d);
        BuildingUndone(old(m.free), old(m.mem), old(m.owner), free2, mem2, owner2, m.free, m.mem, m.owner, d);
        return NoMemory;
      }
      RegionMapped(free1, mem1, owner1, m.free, m.mem, m.owner, d, kmap, k);
      k := k + 1;
    }
    assert kmap[..|kmap|] == kmap;
    KernelAsAsked(m.free, m.mem, m.owner, d, kmap);
    return Copied(d);
  }

  lemma NoTables(mem: Memory, d: Frame, kmap: seq<Region>)
    ensures Present(mem[d := Empty()], d) == {} == Tables(kmap[..0])
  {
  }

  lemma PaidIs(free: seq<Frame>, mem: Memory, free': seq<Frame>, mem': Memory, d: Frame, first: nat, n: nat)
    requires Paid(free, mem, free', mem', d, first, n)
    ensures Present(mem', d) == Present(mem, d) + Indices(first, n)
    ensures |free'| + |Present(mem', d)| == |free| + |Present(mem, d)|
  {
  }

  /** The processor reaches every page of every region, with the permissions of the region. */
  ghost predicate KernelReached(mem: Memory, d: Frame, kmap: seq<Region>) {
    forall i: nat, u: nat :: i < |kmap| && InRegion(kmap[i], u) ==>
      Hardware(mem, d, u) == Reach(kmap[i].frame + (u - kmap[i].va / PGSIZE), AllowsWrite(kmap[i].perm),
                                   AllowsUser(kmap[i].perm))
  }

  lemma KernelAsAsked(free: seq<Frame>, mem: Memory, owner: Owners, d: Frame, kmap: seq<Region>)
    requires Ok(free, mem, owner) && IsDir(owner, d) && KernelOnly(kmap) && KernelIs(mem, d, kmap)
    ensures KernelReached(mem, d, kmap)
  {
    hide Ok, Hardware, AllowsWrite, AllowsUser, Get;
    forall i: nat, u: nat | i < |kmap| && InRegion(kmap[i], u)
      ensures Hardware(mem, d, u) == Reach(kmap[i].frame + (u - kmap[i].va / PGSIZE), AllowsWrite(kmap[i].perm),
                                           AllowsUser(kmap[i].perm))
    {
      RegionIsKernel(kmap, i, u);
      HardwareIs(free, mem, owner, d, u);
      assert Get(mem, d, u) == PageIn(kmap[i], u);
    }
  }

  lemma Untouched(free: seq<Frame>, mem: Memory, owner: Owners)
    ensures NoTrace(free, mem, owner, free, mem, owner)
  {
  }

  lemma RootBuilt(free: seq<Frame>, free1: seq<Frame>, mem: Memory, owner: Owners, d: Frame)
    requires free == [d] + free1 && Ok(free1, mem, owner) && InHand(free1, mem, owner, d)
    ensures BuiltOn(free, mem, owner, free1, mem[d := Empty()], owner[d := Root(d)], d)
    ensures NoUserPages(mem[d := Empty()], d, 0)
  {
  }

  // ---- copyuvm -----------------------------------------------------------------------------------------

  /** Page v of c holds what page v of d holds, under the same flags, in a frame that was free. */
  ghost predicate CopyOf(free: seq<Frame>, mem: Memory, d: Frame, c: Frame, v: nat) {
    var p, q := Get(mem, d, v), Get(mem, c, v);
    && p.Pte? && q.Pte? && q.flags == p.flags && q.frame in free
    && p.frame in mem && q.frame in mem && mem[q.frame] == mem[p.frame] && mem[p.frame].Bytes?
  }

  ghost predicate CopiedTo(free: seq<Frame>, mem': Memory, d: Frame, c: Frame, n: nat) {
    (forall v: nat :: v < n ==> CopyOf(free, mem', d, c, v)) && NoUserPages(mem', c, n)
  }

  /** A directory that is not being built keeps its pages and their bytes. */
  lemma OthersGet(free: seq<Frame>, mem: Memory, owner: Owners, mem': Memory, owner': Owners, d: Frame, c: Frame,
                  v: nat)
    requires Ok(free, mem, owner) && OthersSame(mem, owner, mem', owner', c) && IsDir(owner, d) && d != c && v < LAST
    ensures Get(mem', d, v) == Get(mem, d, v) && IsDir(owner', d)
    ensures v < USER && Get(mem, d, v).Pte? ==>
              var f := Get(mem, d, v).frame; f in mem && f in mem' && mem'[f] == mem[f] && mem[f].Bytes? && f in owner
  {
  }

  /** One turn of copyuvm's loop; memory running out leaves no frame in hand. */
  method CopyPage(m: Machine, d: Frame, c: Frame, v: nat) returns (r: CopyResult)
    requires m.Valid() && IsDir(m.owner, d) && IsDir(m.owner, c) && d != c && v < USER && Get(m.mem, c, v).Absent?
    modifies m
    ensures m.Valid() && IsDir(m.owner, d) && IsDir(m.owner, c)
    ensures r.Copied? || r.NoMemory? || r.NotPresent?
    ensures OthersSame(old(m.mem), old(m.owner), m.mem, m.owner, c)
    ensures Conserved(old(m.free), old(m.owner), m.free, m.owner)
    ensures forall g :: g in m.free ==> g in old(m.free)
    ensures r.NotPresent? <==> Get(old(m.mem), d, v).Absent?
    ensures r.Copied? ==> Copying(old(m.free), old(m.mem), old(m.owner), m.mem, d, c, v)
    ensures r.Copied? ==> PaidPages(old(m.free), old(m.mem), m.free, m.mem, c, v, 1)
    ensures r.NoMemory? ==> |old(m.free)| < Need(old(m.mem), c, v, 1)
  {
    hide Ok, OthersSame, Conserved, Copying, PaidPages, Need, Present;
    var ok, t := m.Walkpgdir(d, v, false);
    Reflexive(m.free, m.mem, m.owner, c);
    if !ok {
      return NotPresent;
    }
    TableBehind(m.free, m.mem, m.owner, d, v);
    var pte := Entry(m.mem, t, v % NENTRIES);
    if pte.Absent? {
      return NotPresent;
    }
    var got, f := m.Kalloc();
    if !got {
      AtLeastPages(m.mem, c, v);
      return NoMemory;
    }
    r := MapCopy(m, d, c, v, pte, f, old(m.free));
    OthersGet(old(m.free), old(m.mem), old(m.owner), m.mem, m.owner, d, c, v);
  }

  /** memmove into the new frame f, then mappages. */
  method MapCopy(m: Machine, d: Frame, c: Frame, v: nat, pte: Pte, f: Frame, ghost free0: seq<Frame>)
    returns (r: CopyResult)
    requires m.Valid() && IsDir(m.owner, d) && IsDir(m.owner, c) && d != c && v < USER && Get(m.mem, c, v).Absent?
    requires pte.Pte? && Get(m.mem, d, v) == pte && free0 == [f] + m.free && InHand(m.free, m.mem, m.owner, f)
    requires Ok(free0, m.mem, m.owner)
    modifies m
    ensures m.Valid() && IsDir(m.owner, c) && (r == Copied(c) || r == NoMemory)
    ensures OthersSame(old(m.mem), old(m.owner), m.mem, m.owner, c) && Conserved(free0, old(m.owner), m.free, m.owner)
    ensures forall g :: g in m.free ==> g in free0
    ensures r.Copied? ==> Copying(free0, old(m.mem), old(m.owner), m.mem, d, c, v)
    ensures r.Copied? ==> PaidPages(free0, old(m.mem), m.free, m.mem, c, v, 1)
    ensures r.NoMemory? ==> |free0| < Need(old(m.mem), c, v, 1)
  {
    hide Ok, OthersSame, Conserved, Copying, MappedRange, TriedOnce, Get, Entry, Paid, PaidPages, Need, Present;
    ghost var free1 := m.free;
    PageHolds(m.free, m.mem, m.owner, d, v);
    SameOwned(m.free, m.mem, m.owner, m.mem[f := m.mem[pte.frame]]);
    m.mem := m.mem[f := m.mem[pte.frame]];
    ghost var mem1 := m.mem;
    assert Covered(v * PGSIZE, PGSIZE) == 1 && v * PGSIZE / PGSIZE == v;
    var mapped, n := m.Mappages(c, v * PGSIZE, PGSIZE, f, pte.flags);
    SamePresent(old(m.mem), mem1, c);
    PaidWithPage(free0, old(m.mem), free1, mem1, m.free, m.mem, c, v, n);
    if mapped.OutOfMemory? {
      OnceTried(free0, old(m.mem), old(m.owner), free1, mem1, m.free, m.mem, m.owner, c, v, f, mem1[pte.frame],
                pte.flags);
      StillInHand(free1, mem1, old(m.owner), m.free, m.mem, m.owner, c, v, 0, f, pte.flags);
      TriedAndFreed(free0, old(m.mem), old(m.owner), m.free, m.mem, m.owner, c, f);
      m.Kfree(f);
      r := NoMemory;
    } else {
      OnceCopied(free0, old(m.mem), old(m.owner), free1, mem1, m.free, m.mem, m.owner, d, c, v, f);
      r := Copied(c);
    }
  }

  lemma Reflexive(free: seq<Frame>, mem: Memory, owner: Owners, c: Frame)
    ensures OthersSame(mem, owner, mem, owner, c) && Conserved(free, owner, free, owner)
  {
  }

  lemma PageHolds(free: seq<Frame>, mem: Memory, owner: Owners, d: Frame, v: nat)
    requires Ok(free, mem, owner) && IsDir(owner, d) && v < USER && Get(mem, d, v).Pte?
    ensures Get(mem, d, v).frame in owner && Get(mem, d, v).frame in mem && mem[Get(mem, d, v).frame].Bytes?
  {
  }

  lemma TriedAndFreed(free: seq<Frame>, mem: Memory, owner: Owners, free2: seq<Frame>, mem2: Memory, owner2: Owners,
                      c: Frame, f: Frame)
    requires TriedOnce(free, mem, owner, free2, mem2, owner2, c, true, f) && f in free && Ok(free, mem, owner)
    ensures OthersSame(mem, owner, mem2[f := Junk], owner2, c) && Conserved(free, owner, [f] + free2, owner2)
    ensures forall g :: g in [f] + free2 ==> g in free
  {
  }

  /** The new page in place, everything else of c and every byte of a page as before. */
  ghost predicate Copying(free: seq<Frame>, mem: Memory, owner: Owners, mem': Memory, d: Frame, c: Frame, v: nat) {
    var p, q := Get(mem, d, v), Get(mem', c, v);
    && p.Pte? && q.Pte? && q.flags == p.flags && q.frame in free
    && p.frame in mem && q.frame in mem' && mem'[q.frame] == mem[p.frame]
    && (forall u: nat :: u < LAST && u != v ==> Get(mem', c, u) == Get(mem, c, u))
    && (forall g :: g in owner && owner[g].PageOf? && g in mem ==> g in mem' && mem'[g] == mem[g])
  }

  lemma OnceCopied(free: seq<Frame>, mem: Memory, owner: Owners, free1: seq<Frame>, mem1: Memory,
                   free2: seq<Frame>, mem2: Memory, owner2: Owners, d: Frame, c: Frame, v: nat, f: Frame)
    requires Ok(free, mem, owner) && IsDir(owner, d) && IsDir(owner, c) && v < USER && Get(mem, d, v).Pte?
    requires free == [f] + free1 && f !in owner && f !in free1 && Get(mem, d, v).frame in mem
    requires mem1 == mem[f := mem[Get(mem, d, v).frame]]
    requires MappedRange(free1, mem1, owner, free2, mem2, owner2, c, v, 1, f, Get(mem, d, v).flags)
    ensures OthersSame(mem, owner, mem2, owner2, c) && Conserved(free, owner, free2, owner2)
    ensures (forall g :: g in free2 ==> g in free) && Copying(free, mem, owner, mem2, d, c, v)
  {
    SameOwned(free, mem, owner, mem1);
  }

  lemma CopiedMore(free0: seq<Frame>, free: seq<Frame>, mem: Memory, owner: Owners, mem': Memory, owner': Owners,
                   d: Frame, c: Frame, n: nat)
    requires CopiedTo(free0, mem, d, c, n) && Copying(free, mem, owner, mem', d, c, n) && n < USER
    requires Ok(free, mem, owner) && OthersSame(mem, owner, mem', owner', c)
    requires IsDir(owner, d) && IsDir(owner, c) && d != c
    requires forall g :: g in free ==> g in free0
    ensures CopiedTo(free0, mem', d, c, n + 1)
  {
    hide Ok, OthersSame, Get;
    forall v: nat | v < n + 1 ensures CopyOf(free0, mem', d, c, v) {
      OthersGet(free, mem, owner, mem', owner', d, c, v);
      if v < n {
        PageStays(free0, free, mem, owner, mem', owner', d, c, v, n);
      } else {
        PageArrives(free0, free, mem, owner, mem', d, c, n);
      }
    }
  }

  lemma PageStays(free0: seq<Frame>, free: seq<Frame>, mem: Memory, owner: Owners, mem': Memory, owner': Owners,
                  d: Frame, c: Frame, v: nat, n: nat)
    requires CopyOf(free0, mem, d, c, v) && Copying(free, mem, owner, mem', d, c, n) && v < n < USER
    requires Ok(free, mem, owner) && IsDir(owner, c) && Get(mem', d, v) == Get(mem, d, v)
    requires Get(mem, d, v).Pte? && var f := Get(mem, d, v).frame; f in mem && f in mem' && mem'[f] == mem[f]
    ensures CopyOf(free0, mem', d, c, v)
  {
  }

  lemma PageArrives(free0: seq<Frame>, free: seq<Frame>, mem: Memory, owner: Owners, mem': Memory, d: Frame, c: Frame,
                    n: nat)
    requires Copying(free, mem, owner, mem', d, c, n) && Get(mem', d, n) == Get(mem, d, n)
    requires forall g :: g in free ==> g in free0
    requires Get(mem, d, n).Pte?
    requires var f := Get(mem, d, n).frame; f in mem && f in mem' && mem'[f] == mem[f] && mem[f].Bytes?
    ensures CopyOf(free0, mem', d, c, n)
  {
  }

  ghost predicate AllPresent(mem: Memory, d: Frame, n: nat) { forall v: nat :: v < n ==> Get(mem, d, v).Pte? }

  lemma OneMorePresent(mem: Memory, d: Frame, n: nat, count: nat)
    requires n < count
    ensures AllPresent(mem, d, n) && Get(mem, d, n).Pte? ==> AllPresent(mem, d, n + 1)
    ensures Get(mem, d, n).Absent? ==> !AllPresent(mem, d, count)
  {
  }

  /** Copying a user page leaves the kernel half alone. */
  lemma KernelStays(free: seq<Frame>, mem: Memory, owner: Owners, mem': Memory, d: Frame, c: Frame, v: nat,
                    kmap: seq<Region>)
    requires KernelOnly(kmap) && KernelIs(mem, c, kmap) && Copying(free, mem, owner, mem', d, c, v) && v < USER
    ensures KernelIs(mem', c, kmap)
  {
    hide Get;
    forall i: nat, u: nat | i < |kmap| && InRegion(kmap[i], u) ensures Get(mem', c, u) == PageIn(kmap[i], u) {
      RegionIsKernel(kmap, i, u);
    }
  }

  /** fork's deep copy of the first sz bytes: equal pages in fresh frames, or nothing at all. */
  method Copyuvm(m: Machine, d: Frame, sz: nat, kmap: seq<Region>) returns (r: CopyResult)
    requires m.Valid() && IsDir(m.owner, d) && sz <= KERNBASE && KernelOnly(kmap)
    modifies m
    ensures r.Copied? ==> m.Valid() && BuiltOn(old(m.free), old(m.mem), old(m.owner), m.free, m.mem, m.owner, r.dir)
    ensures r.Copied? ==> CopiedTo(old(m.free), m.mem, d, r.dir, Up(sz))
    ensures r.NoMemory? ==> m.Valid() && NoTrace(old(m.free), old(m.mem), old(m.owner), m.free, m.mem, m.owner)
    ensures r.NoMemory? ==> |old(m.free)| < CopyFrames(kmap, Up(sz))
    ensures r.Copied? ==> |old(m.free)| == |m.free| + CopyFrames(kmap, Up(sz))
    ensures r.Copied? ==> KernelIs(m.mem, r.dir, kmap) && KernelReached(m.mem, r.dir, kmap) && !SharePage(kmap)
    ensures r.Copied? ==> forall v: nat :: v < Up(sz) ==> Twins(old(m.free), old(m.mem), m.mem, d, r.dir, v)
    ensures r.KernelRemap? ==> SharePage(kmap)
    ensures r.NotPresent? ==> !SharePage(kmap) && !AllPresent(old(m.mem), d, Up(sz))
    ensures |old(m.free)| >= CopyFrames(kmap, Up(sz)) ==>
              r.Copied? == (!SharePage(kmap) && AllPresent(old(m.mem), d, Up(sz))) && r.KernelRemap? == SharePage(kmap)
  {
    hide Ok, BuiltOn, NoTrace, Freed, OthersSame, Conserved, Get, CopiedTo, Copying, KernelIs, SharePage, AllPresent,
         PaidPages, Need, Present, KernelReached, Twins, CopyFrames;
    AtLeastTables(kmap, Up(sz));
    r := Setupkvm(m, kmap);
    if !r.Copied? {
      return;
    }
    var c := r.dir;
    ghost var free0, mem0 := m.free, m.mem;
    EnoughForCopy(kmap, mem0, c, Up(sz));
    NoPagesPaid(free0, mem0, c, 0);
    BesideIt(old(m.free), old(m.mem), old(m.owner), m.free, m.mem, m.owner, d, c);
    NothingCopied(old(m.free), m.mem, old(m.mem), d, c);
    var i := 0;
    ghost var n := 0;
    while i < sz
      invariant i == n * PGSIZE && n <= Up(sz) && m.Valid() && IsDir(m.owner, d) && IsDir(m.owner, c) && d != c
      invariant BuiltOn(old(m.free), old(m.mem), old(m.owner), m.free, m.mem, m.owner, c)
      invariant CopiedTo(old(m.free), m.mem, d, c, n) && AllPresent(old(m.mem), d, n) && KernelIs(m.mem, c, kmap)
      invariant PaidPages(free0, mem0, m.free, m.mem, c, 0, n)
      decreases sz - i
    {
      ghost var free1, mem1, owner1 := m.free, m.mem, m.owner;
      FirstUncopied(old(m.free), old(m.mem), old(m.owner), free1, mem1, owner1, d, c, n);
      var q := CopyPage(m, d, c, i / PGSIZE);
      OneMorePresent(old(m.mem), d, n, Up(sz));
      if q.NotPresent? {
        return NotPresent;
      }
      BuiltMore(old(m.free), old(m.mem), old(m.owner), free1, mem1, owner1, m.free, m.mem, m.owner, c);
      if q.NoMemory? {
        ShortOfAll(free0, mem0, free1, mem1, c, 0, n, Up(sz));
        ghost var free2, mem2, owner2 := m.free, m.mem, m.owner;
        m.Freevm(c);
        BuildingUndone(old(m.free), old(m.mem), old(m.owner), free2, mem2, owner2, m.free, m.mem, m.owner, c);
        return NoMemory;
      }
      CopiedMore(old(m.free), free1, mem1, owner1, m.mem, m.owner, d, c, n);
      KernelStays(free1, mem1, owner1, m.mem, d, c, n, kmap);
      PaidOnePage(free0, mem0, free1, mem1, m.free, m.mem, c, 0, n);
      i := i + PGSIZE;
      n := n + 1;
    }
    NeedIsPaid(free0, mem0, m.free, m.mem, c, 0, n);
    KernelAsAsked(m.free, m.mem, m.owner, c, kmap);
    TwinsAll(old(m.free), old(m.mem), old(m.owner), m.free, m.mem, m.owner, d, c, n);
  }

  lemma AtLeastTables(kmap: seq<Region>, pages: nat)
    ensures 1 + |Tables(kmap)| <= CopyFrames(kmap, pages)
  {
    hide Tables, Indices;
    SubsetSize(Tables(kmap), Tables(kmap) + Indices(0, pages));
  }

  /** To the processor, page v of c allows what page v of d allows and did, in a fresh frame with the same bytes. */
  ghost predicate Twins(free: seq<Frame>, mem: Memory, mem': Memory, d: Frame, c: Frame, v: nat) {
    var p, q := Hardware(mem', d, v), Hardware(mem', c, v);
    && p.Reach? && p == Hardware(mem, d, v)
    && q.Reach? && q.writable == p.writable && q.user == p.user && q.frame in free && p.frame !in free
    && p.frame in mem' && q.frame in mem' && mem'[q.frame] == mem'[p.frame]
    && p.frame in mem && mem[p.frame] == mem'[p.frame]
  }

  lemma TwinsAll(free: seq<Frame>, mem: Memory, owner: Owners, free': seq<Frame>, mem': Memory, owner': Owners,
                 d: Frame, c: Frame, n: nat)
    requires Ok(free, mem, owner) && Ok(free', mem', owner') && IsDir(owner, d) && d != c && n <= USER
    requires BuiltOn(free, mem, owner, free', mem', owner', c) && CopiedTo(free, mem', d, c, n)
    ensures forall v: nat :: v < n ==> Twins(free, mem, mem', d, c, v)
  {
    hide Ok, OthersSame, Conserved, Get, Twins;
    forall v: nat | v < n ensures Twins(free, mem, mem', d, c, v) {
      assert CopyOf(free, mem', d, c, v);
      OthersGet(free, mem, owner, mem', owner', d, c, v);
      OwnedNotFree(free, mem, owner, Get(mem, d, v).frame);
      TwinsAre(free, mem, owner, free', mem', owner', d, c, v);
    }
  }

  lemma OwnedNotFree(free: seq<Frame>, mem: Memory, owner: Owners, f: Frame)
    requires Ok(free, mem, owner) && f in owner
    ensures f !in free
  {
  }

  lemma TwinsAre(free: seq<Frame>, mem: Memory, owner: Owners, free': seq<Frame>, mem': Memory, owner': Owners,
                 d: Frame, c: Frame, v: nat)
    requires Ok(free, mem, owner) && Ok(free', mem', owner') && v < USER
    requires IsDir(owner, d) && IsDir(owner', d) && IsDir(owner', c)
    requires CopyOf(free, mem', d, c, v) && Get(mem', d, v) == Get(mem, d, v) && Get(mem, d, v).frame !in free
    requires var f := Get(mem, d, v).frame; f in mem && f in mem' && mem'[f] == mem[f]
    ensures Twins(free, mem, mem', d, c, v)
  {
    hide Ok, Hardware, Get;
    HardwareIs(free, mem, owner, d, v);
    HardwareIs(free', mem', owner', d, v);
    HardwareIs(free', mem', owner', c, v);
  }

  lemma BesideIt(free: seq<Frame>, mem: Memory, owner: Owners, free1: seq<Frame>, mem1: Memory, owner1: Owners,
                 d: Frame, c: Frame)
    requires Ok(free, mem, owner) && IsDir(owner, d) && BuiltOn(free, mem, owner, free1, mem1, owner1, c)
    ensures d != c && IsDir(owner1, d) && IsDir(owner1, c)
  {
  }

  lemma NothingCopied(free: seq<Frame>, mem: Memory, mem0: Memory, d: Frame, c: Frame)
    ensures NoUserPages(mem, c, 0) ==> CopiedTo(free, mem, d, c, 0)
    ensures AllPresent(mem0, d, 0)
  {
  }

  lemma FirstUncopied(free: seq<Frame>, mem: Memory, owner: Owners, free1: seq<Frame>, mem1: Memory, owner1: Owners,
                      d: Frame, c: Frame, n: nat)
    requires Ok(free, mem, owner) && IsDir(owner, d) && d != c && n < USER
    requires BuiltOn(free, mem, owner, free1, mem1, owner1, c) && CopiedTo(free, mem1, d, c, n)
    ensures Get(mem1, c, n).Absent? && Get(mem1, d, n) == Get(mem, d, n) && (forall g :: g in free1 ==> g in free)
  {
  }
}
