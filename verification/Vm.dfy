/** walkpgdir, mappages, allocuvm, deallocuvm, freevm and copyuvm over physical memory. */
module Vm {
  import opened Params
  import opened VmSpec

  datatype MapResult = Mapped | OutOfMemory | Remap
  datatype GrowResult = Grown(size: nat) | Failed | Panicked
  datatype CopyResult = Copied(dir: Frame) | NoMemory | NotPresent | KernelRemap

  /** The k-th page of a mapping that starts at user page `first` takes frame f + k. */
  ghost predicate Handed(f: Frame, first: nat, n: nat, g: Frame) { f <= g < f + n && first + (g - f) < USER }

  class Machine {
    var free: seq<Frame>
    var mem: Memory
    ghost var owner: Owners

    ghost predicate Valid()
      reads this
    {
      Ok(free, mem, owner)
    }

    method Kalloc() returns (ok: bool, f: Frame)
      requires Valid()
      modifies this`free
      ensures Valid() && ok == (old(free) != [])
      ensures if ok then old(free) == [f] + free && InHand(free, mem, owner, f) else free == old(free)
    {
      hide Ok, InHand;
      if free == [] {
        return false, 0;
      }
      HeadInHand(free, mem, owner);
      ok, f := true, free[0];
      free := free[1..];
    }

    method Kfree(f: Frame)
      requires Valid() && InHand(free, mem, owner, f)
      modifies this`free, this`mem
      ensures Valid() && free == [f] + old(free) && mem == old(mem)[f := Junk]
    {
      SameOwned(free, mem, owner, mem[f := Junk]);
      mem := mem[f := Junk];
      free := [f] + free;
    }

    /** The page table of a page, made if need be; t is the frame the caller's pointer points into. */
    method Walkpgdir(d: Frame, v: nat, alloc: bool) returns (ok: bool, t: Frame)
      requires Valid() && IsDir(owner, d) && v < LAST
      modifies this
      ensures Valid() && IsDir(owner, d)
      ensures OthersSame(old(mem), old(owner), mem, owner, d) && BytesKept(old(free), old(mem), old(owner), mem)
      ensures Conserved(old(free), old(owner), free, owner) && RolesGrow(old(free), old(owner), owner)
      ensures (forall g :: g in free ==> g in old(free)) && |free| <= |old(free)| <= |free| + 1
      ensures forall u: nat :: u < LAST ==> Get(mem, d, u) == Get(old(mem), d, u)
      ensures ok ==> Entry(mem, d, v / NENTRIES).Pte? && Entry(mem, d, v / NENTRIES).frame == t
      ensures !ok ==> Entry(mem, d, v / NENTRIES).Absent? && (!alloc || free == [])
      ensures !ok || !alloc ==> free == old(free) && mem == old(mem) && owner == old(owner)
      ensures Present(mem, d) == Present(old(mem), d) + if ok then {v / NENTRIES} else {}
      ensures !ok ==> v / NENTRIES !in Present(mem, d)
      ensures |free| + |Present(mem, d)| == |old(free)| + |Present(old(mem), d)|
    {
      hide Ok, InHand, Get, OthersSame, BytesKept, Conserved, RolesGrow, SetEntry;
      AllAsBefore(free, mem, owner, d);
      var pde := Entry(mem, d, v / NENTRIES);
      if pde.Pte? {
        assert v / NENTRIES in Present(mem, d);
        return true, pde.frame;
      }
      if !alloc {
        return false, 0;
      }
      ok, t := Kalloc();
      if ok {
        TableAdded(free, mem, owner, d, v / NENTRIES, t);
        hide Entry, Present;
        mem := mem[t := Empty()];
        mem := SetEntry(mem, d, v / NENTRIES, Pte(t, WU));
        owner := owner[t := TableOf(d, v / NENTRIES)];
      }
    }
  
    /** The entry is written through the table walkpgdir found. */
    method SetPte(d: Frame, v: nat, t: Frame, f: Frame, perm: nat)
      requires Valid() && IsDir(owner, d) && v < LAST
      requires Entry(mem, d, v / NENTRIES).Pte? && Entry(mem, d, v / NENTRIES).frame == t && Get(mem, d, v).Absent?
      requires v < USER ==> InHand(free, mem, owner, f) && mem[f].Bytes?
      modifies this`mem, this`owner
      ensures Valid() && IsDir(owner, d) && owner == Taking(old(owner), d, v, f)
      ensures OthersSame(old(mem), old(owner), mem, owner, d) && BytesKept(free, old(mem), old(owner), mem)
      ensures forall u: nat :: u < LAST ==> Get(mem, d, u) == if u == v then Pte(f, perm) else Get(old(mem), d, u)
      ensures Present(mem, d) == Present(old(mem), d)
    {
      SetPage(free, mem, owner, d, v, f, perm);
      TableBehind(free, mem, owner, d, v);
      SamePresent(mem, SetEntry(mem, t, v % NENTRIES, Pte(f, perm)), d);
      mem := SetEntry(mem, t, v % NENTRIES, Pte(f, perm));
      owner := Taking(owner, d, v, f);
    }

    /**
      Pages first, first + 1, ... map to frames f, f + 1, ...  The first n of them got mapped and
      nothing else changed; n is all of them unless memory ran out or a page was already there.
     */
    method Mappages(d: Frame, va: nat, size: nat, f: Frame, perm: nat) returns (r: MapResult, ghost n: nat)
      requires Valid() && IsDir(owner, d) && size > 0 && va + size <= TWO32
      requires forall g :: Handed(f, va / PGSIZE, Covered(va, size), g) ==> InHand(free, mem, owner, g) && mem[g].Bytes?
      modifies this
      ensures Valid() && IsDir(owner, d) && n <= Covered(va, size)
      ensures MappedRange(old(free), old(mem), old(owner), free, mem, owner, d, va / PGSIZE, n, f, perm)
      ensures |free| <= |old(free)| <= |free| + n + (if r.Remap? then 1 else 0)
      ensures Paid(old(free), old(mem), free, mem, d, va / PGSIZE, n)
      ensures forall u: nat :: va / PGSIZE <= u < va / PGSIZE + n ==>
                Hardware(mem, d, u) == Reach(f + (u - va / PGSIZE), AllowsWrite(perm), AllowsUser(perm))
      ensures match r
              case Mapped => n == Covered(va, size)
              case OutOfMemory =>
                n < Covered(va, size) && free == [] && (va / PGSIZE + n) / NENTRIES !in Present(mem, d)
              case Remap => n < Covered(va, size) && Get(old(mem), d, va / PGSIZE + n).Pte?
    {
      hide MappedRange, InHand, Ok, Get, Entry, Present, Paid, Hardware, AllowsWrite, AllowsUser;
      ghost var first, count := va / PGSIZE, Covered(va, size);
      var a, last := va / PGSIZE * PGSIZE, (va + size - 1) / PGSIZE * PGSIZE;
      var g := f;
      n := 0;
      NothingMapped(free, mem, owner, d, first, f, perm);
      PaidNothing(free, mem, d, first);
      while true
        invariant n < count && a == (first + n) * PGSIZE && g == f + n && Valid() && IsDir(owner, d)
        invariant |free| <= |old(free)| <= |free| + n
        invariant Paid(old(free), old(mem), free, mem, d, first, n)
        invariant MappedRange(old(free), old(mem), old(owner), free, mem, owner, d, first, n, f, perm)
        decreases count - n
      {
        StillInHand(old(free), old(mem), old(owner), free, mem, owner, d, first, n, f, perm);
        ghost var free0, mem0, owner0 := free, mem, owner;
        r := MapOne(d, a / PGSIZE, g, perm);
        OneMore(old(free), old(mem), old(owner), free0, mem0, owner0, free, mem, owner, d, first, n, f, perm);
        PaidMore(old(free), old(mem), free0, mem0, free, mem, d, first, n, if r.Mapped? then 1 else 0);
        if !r.Mapped? {
          RangeReached(old(free), old(mem), old(owner), free, mem, owner, d, first, n, f, perm);
          return;
        }
        n := n + 1;
        if a == last {
          break;
        }
        a := a + PGSIZE;
        g := g + 1;
      }
      RangeReached(old(free), old(mem), old(owner), free, mem, owner, d, first, n, f, perm);
    }

    /** One turn of mappages' loop. */
    method MapOne(d: Frame, v: nat, f: Frame, perm: nat) returns (r: MapResult)
      requires Valid() && IsDir(owner, d) && v < LAST
      requires v < USER ==> InHand(free, mem, owner, f) && mem[f].Bytes?
      modifies this
      ensures Valid() && IsDir(owner, d)
      ensures MappedRange(old(free), old(mem), old(owner), free, mem, owner, d, v, if r.Mapped? then 1 else 0, f, perm)
      ensures |free| <= |old(free)| <= |free| + 1
      ensures Paid(old(free), old(mem), free, mem, d, v, if r.Mapped? then 1 else 0)
      ensures r.OutOfMemory? ==> free == [] == old(free) && v / NENTRIES !in Present(mem, d)
      ensures r.Remap? ==> Get(old(mem), d, v).Pte?
    {
      hide MappedRange, OthersSame, BytesKept, Conserved, RolesGrow, Ok, Paid, Present, Entry, Get, InHand;
      var ok, t := Walkpgdir(d, v, true);
      WalkPaid(old(free), old(mem), free, mem, d, v, ok);
      WalkRange(old(free), old(mem), old(owner), free, mem, owner, d, v, f, perm);
      if !ok {
        return OutOfMemory;
      }
      TableBehind(free, mem, owner, d, v);
      if Entry(mem, t, v % NENTRIES).Pte? {
        return Remap;
      }
      ghost var mem0 := mem;
      StillInHand(old(free), old(mem), old(owner), free, mem, owner, d, v, 0, f, perm);
      ghost var mem1, owner1 := mem, owner;
      SetPte(d, v, t, f, perm);
      SamePaid(old(free), old(mem), free, mem0, mem, d, v);
      SetRange(free, mem1, owner1, mem, owner, d, v, f, perm);
      MoreMapped(old(free), old(mem), old(owner), free, mem1, owner1, free, mem, owner, d, v, 0, 1, f, perm);
      return Mapped;
    }

    /** The frame of a present page is freed and its entry cleared. */
    method FreePage(d: Frame, v: nat, t: Frame)
      requires Valid() && IsDir(owner, d) && v < USER && Get(mem, d, v).Pte?
      requires Entry(mem, d, v / NENTRIES).Pte? && Entry(mem, d, v / NENTRIES).frame == t
      modifies this
      ensures Valid() && IsDir(owner, d)
      ensures Unmapped(old(free), old(mem), old(owner), free, mem, owner, d, v, v + 1)
    {
      hide Ok, Unmapped, Get, OthersSame;
      UnmapOne(free, mem, owner, d, v);
      var f := Entry(mem, t, v % NENTRIES).frame;
      assert f > 0;                       // the panic is not reached
      free := [f] + free;
      mem := mem[f := Junk];
      mem := SetEntry(mem, t, v % NENTRIES, Absent);
      owner := owner - {f};
    }

    method Deallocuvm(d: Frame, oldsz: nat, newsz: nat) returns (size: nat)
      requires Valid() && IsDir(owner, d) && oldsz <= KERNBASE
      modifies this
      ensures Valid() && IsDir(owner, d) && size == if newsz < oldsz then newsz else oldsz
      ensures Unmapped(old(free), old(mem), old(owner), free, mem, owner, d, Up(newsz), Hi(oldsz, newsz))
    {
      hide Ok, Unmapped, Get, Entry;
      ghost var lo, hi := Up(newsz), Hi(oldsz, newsz);
      UnmapNothing(free, mem, owner, d, lo);
      if newsz >= oldsz {
        return oldsz;
      }
      var a := Up(newsz) * PGSIZE;
      ghost var p := lo;
      while a < oldsz
        invariant a == p * PGSIZE && lo <= p && Valid() && IsDir(owner, d)
        invariant Unmapped(old(free), old(mem), old(owner), free, mem, owner, d, lo, Least(p, hi))
        decreases oldsz - a
      {
        InsideUser(p, oldsz);
        ghost var free0, mem0, owner0, prior := free, mem, owner, p;
        var skip := FreeNext(d, a / PGSIZE);
        if skip {
          a := (a / PGSIZE / NENTRIES + 1) * NENTRIES * PGSIZE - PGSIZE;
          p := (p / NENTRIES + 1) * NENTRIES;
        } else {
          p := p + 1;
        }
        SkipOrOne(free0, mem0, owner0, free, mem, owner, d, prior, Least(p, hi), skip);
        UnmapMore(old(free), old(mem), old(owner), free0, mem0, owner0, free, mem, owner, d, lo, prior, Least(p, hi));
        a := a + PGSIZE;
      }
      PastTheEnd(p, oldsz);
      return newsz;
    }

    /** One turn of deallocuvm's loop; `skip` when there is no page table behind the page. */
    method FreeNext(d: Frame, v: nat) returns (skip: bool)
      requires Valid() && IsDir(owner, d) && v < USER
      modifies this
      ensures Valid() && IsDir(owner, d)
      ensures skip ==> Entry(mem, d, v / NENTRIES).Absent? && free == old(free)
      ensures skip ==> mem == old(mem) && owner == old(owner)
      ensures !skip ==> Unmapped(old(free), old(mem), old(owner), free, mem, owner, d, v, v + 1)
    {
      var ok, t := Walkpgdir(d, v, false);
      skip := !ok;
      if ok {
        TableBehind(free, mem, owner, d, v);
        if Entry(mem, t, v % NENTRIES).Pte? {
          FreePage(d, v, t);
        } else {
          UnmapAbsent(free, mem, owner, d, v, v + 1);
        }
      }
    }

    method Freevm(d: Frame)
      requires Valid() && IsDir(owner, d)
      modifies this
      ensures Valid() && Freed(old(free), old(mem), old(owner), free, mem, owner, d)
    {
      hide Ok, Unmapped, TablesFreed, Freed, Entry, InHand;
      var _ := Deallocuvm(d, KERNBASE, 0);
      ghost var free1, mem1, owner1 := free, mem, owner;
      ForgetDir(free, mem, owner, d);
      owner := Without(owner, d);
      var i := 0;
      NoTableYet(free1, mem1, owner1, d);
      while i < NENTRIES
        invariant 0 <= i <= NENTRIES && Valid() && owner == Without(owner1, d)
        invariant TablesFreed(free1, mem1, owner1, free, mem, d, i)
      {
        NextTable(free1, mem1, owner1, free, mem, d, i);
        var pde := Entry(mem, d, i);
        if pde.Pte? {
          Kfree(pde.frame);
        }
        i := i + 1;
      }
      AllFreed(old(free), old(mem), old(owner), free1, mem1, owner1, free, mem, d);
      RootInHand(free1, mem1, owner1, free, mem, d);
      Kfree(d);
    }

    /** One turn of allocuvm's loop.  When memory runs out with a frame already taken, it stays in hand. */
    method GrowPage(d: Frame, v: nat) returns (r: MapResult, held: bool, f: Frame)
      requires Valid() && IsDir(owner, d) && v < USER
      modifies this
      ensures Valid() && IsDir(owner, d)
      ensures r.Mapped? ==> GrownRange(old(free), old(mem), old(owner), free, mem, owner, d, v, v + 1)
      ensures r.OutOfMemory? ==> TriedOnce(old(free), old(mem), old(owner), free, mem, owner, d, held, f)
      ensures held ==> InHand(free, mem, owner, f)
      ensures r.Mapped? ==> |free| < |old(free)| <= |free| + 2
      ensures r.OutOfMemory? ==> |old(free)| < Need(old(mem), d, v, 1)
      ensures r.Mapped? ==> PaidPages(old(free), old(mem), free, mem, d, v, 1)
      ensures r.Remap? ==> Get(old(mem), d, v).Pte? && |old(free)| >= 1
    {
      hide MappedRange, Ok, GrownRange, TriedOnce, Paid, PaidPages, Need, Present;
      held, f := Kalloc();
      if !held {
        AtLeastPages(mem, d, v);
        NothingTried(free, mem, owner, d, f);
        return OutOfMemory, false, f;
      }
      ghost var mem1 := mem;
      SameOwned(free, mem, owner, mem[f := Bytes(0)]);
      mem := mem[f := Bytes(0)];
      assert Covered(v * PGSIZE, PGSIZE) == 1;
      assert v * PGSIZE / PGSIZE == v;
      ghost var mem2 := mem;
      ghost var free1 := free;
      ghost var n;
      r, n := Mappages(d, v * PGSIZE, PGSIZE, f, WU);
      SamePresent(old(mem), mem2, d);
      PaidWithPage(old(free), old(mem), free1, mem2, free, mem, d, v, n);
      if r.OutOfMemory? {
        OnceTried(old(free), old(mem), old(owner), free1, mem2, free, mem, owner, d, v, f, Bytes(0), WU);
        StillInHand(free1, mem2, old(owner), free, mem, owner, d, v, 0, f, WU);
      } else if r.Mapped? {
        OnceGrown(old(free), old(mem), old(owner), free1, mem2, free, mem, owner, d, v, f);
        held := false;
      } else {
        held := false;
        RemapWasThere(old(free), old(mem), old(owner), free1, mem2, d, v, f);
      }
    }

    /**
      Grow from oldsz to newsz bytes, or undo.  After a failure all but the range is left, so the
      user mapping is back exactly when the range was unmapped before.  The panic is for a page of
      the range that was mapped, reached before memory ran out.
     */
    method Allocuvm(d: Frame, oldsz: nat, newsz: nat) returns (r: GrowResult)
      requires Valid() && IsDir(owner, d)
      modifies this
      ensures Valid()
      ensures r.Grown? <==> r == Grown(if newsz < oldsz then oldsz else newsz)
      ensures r.Grown? ==> newsz < KERNBASE
      ensures r.Grown? ==> GrownRange(old(free), old(mem), old(owner), free, mem, owner, d, Up(oldsz), Hi(newsz, oldsz))
      ensures r.Failed? ==> CutBack(old(free), old(mem), old(owner), free, mem, owner, d,
                                    Up(oldsz), if newsz < KERNBASE then Hi(newsz, oldsz) else Up(oldsz))
      ensures r.Failed? ==>
                newsz >= KERNBASE || |old(free)| < Need(old(mem), d, Up(oldsz), Hi(newsz, oldsz) - Up(oldsz))
      ensures r.Grown? ==> |old(free)| == |free| + Need(old(mem), d, Up(oldsz), Hi(newsz, oldsz) - Up(oldsz))
      ensures r.Grown? ==> forall u: nat :: Up(oldsz) <= u < Hi(newsz, oldsz) ==> UserPage(old(free), mem, d, u)
      ensures r.Failed? ==>
                ((forall u: nat :: u < LAST ==> Get(mem, d, u) == Get(old(mem), d, u))
                 <==> newsz >= KERNBASE || Clear(old(mem), d, Up(oldsz), Up(newsz)))
      ensures r.Panicked? ==>
                exists u: nat :: Up(oldsz) <= u < Up(newsz) && Get(old(mem), d, u).Pte? && u - Up(oldsz) < |old(free)|
    {
      hide Ok, GrownRange, TriedOnce, CutBack, Get, Unmapped, PaidPages, Need, UserPage;
      ghost var lo, hi := Up(oldsz), Hi(newsz, oldsz);
      NothingGrown(free, mem, owner, d, lo);
      NothingCut(free, mem, owner, d, lo);
      NoPagesPaid(free, mem, d, lo);
      NeedIsPaid(free, mem, free, mem, d, lo, 0);
      RestoredExactly(free, mem, owner, free, mem, owner, d, lo, lo);
      if newsz >= KERNBASE {
        return Failed;
      }
      if newsz < oldsz {
        return Grown(oldsz);
      }
      var a := Up(oldsz) * PGSIZE;
      ghost var n := lo;
      while a < newsz
        invariant a == n * PGSIZE && lo <= n <= hi && Valid() && IsDir(owner, d)
        invariant GrownRange(old(free), old(mem), old(owner), free, mem, owner, d, lo, n)
        invariant |free| + (n - lo) <= |old(free)| && PaidPages(old(free), old(mem), free, mem, d, lo, n - lo)
        decreases newsz - a
      {
        ghost var free0, mem0, owner0 := free, mem, owner;
        var m, held, f := GrowPage(d, a / PGSIZE);
        if m.Remap? {
          StillThere(old(free), old(mem), old(owner), free0, mem0, owner0, d, lo, n, n);
          return Panicked;
        }
        if m.OutOfMemory? {
          ghost var free1, mem1, owner1 := free, mem, owner;
          var _ := Deallocuvm(d, newsz, oldsz);
          CutAll(old(free), old(mem), old(owner), free0, mem0, owner0, free1, mem1, owner1, free, mem, owner, d, lo, n,
                 hi, held, f);
          if held {
            ghost var free2, mem2 := free, mem;
            Kfree(f);
            CutWithout(old(free), old(mem), old(owner), free2, mem2, owner, d, lo, hi, f);
          }
          RestoredExactly(old(free), old(mem), old(owner), free, mem, owner, d, lo, hi);
          ShortOfAll(old(free), old(mem), free0, mem0, d, lo, n - lo, hi - lo);
          return Failed;
        }
        PaidOnePage(old(free), old(mem), free0, mem0, free, mem, d, lo, n - lo);
        GrownMore(old(free), old(mem), old(owner), free0, mem0, owner0, free, mem, owner, d, lo, n);
        a := a + PGSIZE;
        n := n + 1;
      }
      NeedIsPaid(old(free), old(mem), free, mem, d, lo, n - lo);
      GrownReached(old(free), old(mem), old(owner), free, mem, owner, d, lo, n);
      return Grown(newsz);
    }
  }

  /** A user program may read and write the page, which is one of the frames that were free, and finds zeroes. */
  ghost predicate UserPage(free: seq<Frame>, mem: Memory, d: Frame, u: nat) {
    var h := Hardware(mem, d, u);
    h.Reach? && h.writable && h.user && h.frame in free && h.frame in mem && mem[h.frame] == Bytes(0)
  }

  lemma GrownReached(free: seq<Frame>, mem: Memory, owner: Owners, free': seq<Frame>, mem': Memory, owner': Owners,
                     d: Frame, lo: nat, hi: nat)
    requires GrownRange(free, mem, owner, free', mem', owner', d, lo, hi)
    requires Ok(free', mem', owner') && IsDir(owner', d) && hi <= LAST
    ensures forall u: nat :: lo <= u < hi ==> UserPage(free, mem', d, u)
  {
    hide Ok, OthersSame, BytesKept, RolesGrow, Conserved, Get, Hardware;
    forall u: nat | lo <= u < hi ensures UserPage(free, mem', d, u) {
      HardwareIs(free', mem', owner', d, u);
      assert NewPage(free, mem', d, u);
    }
  }

  /** A page costs at least its own frame. */
  lemma AtLeastPages(mem: Memory, d: Frame, v: nat)
    ensures Need(mem, d, v, 1) >= 1
  {
    hide Present, Indices;
  }

  /** One frame for the page, and one more if its table was missing. */
  lemma PaidWithPage(free: seq<Frame>, mem: Memory, free1: seq<Frame>, mem1: Memory, free2: seq<Frame>, mem2: Memory,
                     d: Frame, v: nat, n: nat)
    requires |free| == |free1| + 1 && Present(mem1, d) == Present(mem, d) && n <= 1
    requires Paid(free1, mem1, free2, mem2, d, v, n)
    ensures n == 1 ==> PaidPages(free, mem, free2, mem2, d, v, 1)
    ensures n == 0 && free2 == [] && v / NENTRIES !in Present(mem2, d) ==> |free| < Need(mem, d, v, 1)
  {
    hide Present, Indices;
    IndicesNext(v, 0);
    if v / NENTRIES !in Present(mem2, d) && n == 0 {
      assert Indices(v, 1) - Present(mem, d) == {v / NENTRIES};
    }
  }

  /** All pages of d but lo up to hi are as they were, those are absent, and no frame is missing except perhaps f. */
  ghost predicate CutBackBut(free: seq<Frame>, mem: Memory, owner: Owners, free': seq<Frame>, mem': Memory,
                             owner': Owners, d: Frame, lo: nat, hi: nat, held: bool, f: Frame)
  {
    && OthersSame(mem, owner, mem', owner', d)
    && (forall u: nat :: u < LAST ==> Get(mem', d, u) == if lo <= u < hi then Absent else Get(mem, d, u))
    && (forall g :: g in free || g in owner <==> g in free' || g in owner' || (held && g == f))
    && (forall g :: g in owner && owner[g].PageOf? && g in owner' && g in mem ==> g in mem' && mem'[g] == mem[g])
  }

  ghost predicate CutBack(free: seq<Frame>, mem: Memory, owner: Owners, free': seq<Frame>, mem': Memory, owner': Owners,
                          d: Frame, lo: nat, hi: nat)
  {
    CutBackBut(free, mem, owner, free', mem', owner', d, lo, hi, false, 0)
  }

  lemma NothingGrown(free: seq<Frame>, mem: Memory, owner: Owners, d: Frame, lo: nat)
    ensures GrownRange(free, mem, owner, free, mem, owner, d, lo, lo)
  {
  }

  lemma NothingCut(free: seq<Frame>, mem: Memory, owner: Owners, d: Frame, lo: nat)
    ensures CutBack(free, mem, owner, free, mem, owner, d, lo, lo)
  {
  }

  lemma StillThere(free: seq<Frame>, mem: Memory, owner: Owners, free': seq<Frame>, mem': Memory, owner': Owners,
                   d: Frame, lo: nat, hi: nat, u: nat)
    requires GrownRange(free, mem, owner, free', mem', owner', d, lo, hi) && hi <= u < LAST
    ensures Get(mem', d, u) == Get(mem, d, u)
  {
  }

  lemma GrownMore(free: seq<Frame>, mem: Memory, owner: Owners, free0: seq<Frame>, mem0: Memory, owner0: Owners,
                  free1: seq<Frame>, mem1: Memory, owner1: Owners, d: Frame, lo: nat, n: nat)
    requires GrownRange(free, mem, owner, free0, mem0, owner0, d, lo, n) && lo <= n < LAST && n < USER
    requires GrownRange(free0, mem0, owner0, free1, mem1, owner1, d, n, n + 1)
    requires Ok(free0, mem0, owner0) && IsDir(owner0, d)
    ensures GrownRange(free, mem, owner, free1, mem1, owner1, d, lo, n + 1)
  {
    hide OthersSame, Get, BytesKept, Ok, GrownRange, Conserved, RolesGrow;
    GrownFacts(free, mem, owner, free0, mem0, owner0, d, lo, n);
    GrownFacts(free0, mem0, owner0, free1, mem1, owner1, d, n, n + 1);
    OthersTwice(mem, owner, mem0, owner0, mem1, owner1, d);
    BytesKeptTwice(free, mem, owner, free0, mem0, owner0, mem1);
    RolesTwice(free, owner, free0, owner0, owner1);
    GrownPages(free, mem, owner, free0, mem0, owner0, free1, mem1, owner1, d, lo, n);
    GrownParts(free, mem, owner, free0, owner0, free1, mem1, owner1, d, lo, n + 1);
  }

  lemma GrownPages(free: seq<Frame>, mem: Memory, owner: Owners, free0: seq<Frame>, mem0: Memory, owner0: Owners,
                   free1: seq<Frame>, mem1: Memory, owner1: Owners, d: Frame, lo: nat, n: nat)
    requires GrownRange(free, mem, owner, free0, mem0, owner0, d, lo, n) && lo <= n < LAST && n < USER
    requires GrownRange(free0, mem0, owner0, free1, mem1, owner1, d, n, n + 1)
    requires Ok(free0, mem0, owner0) && IsDir(owner0, d)
    ensures forall u: nat :: lo <= u < n + 1 ==> Get(mem, d, u).Absent? && NewPage(free, mem1, d, u)
  {
    hide OthersSame;
    forall u: nat | lo <= u < n ensures NewPage(free, mem1, d, u) && Get(mem, d, u).Absent? {
      assert NewPage(free, mem0, d, u) && Get(mem1, d, u) == Get(mem0, d, u);
      assert owner0[Get(mem0, d, u).frame] == PageOf(d, u);
    }
    assert NewPage(free0, mem1, d, n) && Get(mem0, d, n).Absent?;
    assert NewPage(free, mem1, d, n) && Get(mem, d, n).Absent?;
  }

  lemma GrownParts(free: seq<Frame>, mem: Memory, owner: Owners, free0: seq<Frame>, owner0: Owners, free1: seq<Frame>,
                   mem1: Memory, owner1: Owners, d: Frame, lo: nat, hi: nat)
    requires OthersSame(mem, owner, mem1, owner1, d)
    requires BytesKept(free, mem, owner, mem1) && RolesGrow(free, owner, owner1)
    requires Conserved(free, owner, free0, owner0) && Conserved(free0, owner0, free1, owner1)
    requires forall g :: g in free1 ==> g in free
    requires forall u: nat :: u < LAST && !(lo <= u < hi) ==> Get(mem1, d, u) == Get(mem, d, u)
    requires forall u: nat :: lo <= u < hi ==> Get(mem, d, u).Absent? && NewPage(free, mem1, d, u)
    ensures GrownRange(free, mem, owner, free1, mem1, owner1, d, lo, hi)
  {
  }

  lemma CutAll(free: seq<Frame>, mem: Memory, owner: Owners, free0: seq<Frame>, mem0: Memory, owner0: Owners,
               free1: seq<Frame>, mem1: Memory, owner1: Owners, free2: seq<Frame>, mem2: Memory, owner2: Owners,
               d: Frame, lo: nat, n: nat, hi: nat, held: bool, f: Frame)
    requires GrownRange(free, mem, owner, free0, mem0, owner0, d, lo, n) && lo <= n <= hi
    requires TriedOnce(free0, mem0, owner0, free1, mem1, owner1, d, held, f)
    requires held ==> InHand(free1, mem1, owner1, f)
    requires Unmapped(free1, mem1, owner1, free2, mem2, owner2, d, lo, hi)
    requires Ok(free, mem, owner) && Ok(free2, mem2, owner2)
    ensures CutBackBut(free, mem, owner, free2, mem2, owner2, d, lo, hi, held, f)
    ensures !held ==> CutBack(free, mem, owner, free2, mem2, owner2, d, lo, hi)
    ensures held ==> InHand(free2, mem2, owner2, f)
  {
  }

  lemma GrownFacts(free: seq<Frame>, mem: Memory, owner: Owners, free': seq<Frame>, mem': Memory, owner': Owners,
                   d: Frame, lo: nat, hi: nat)
    requires GrownRange(free, mem, owner, free', mem', owner', d, lo, hi)
    ensures OthersSame(mem, owner, mem', owner', d) && BytesKept(free, mem, owner, mem')
    ensures Conserved(free, owner, free', owner') && RolesGrow(free, owner, owner')
    ensures forall g :: g in free' ==> g in free
    ensures forall u: nat :: u < LAST && !(lo <= u < hi) ==> Get(mem', d, u) == Get(mem, d, u)
  {
  }

  lemma RolesTwice(free: seq<Frame>, owner: Owners, free0: seq<Frame>, owner0: Owners, owner1: Owners)
    requires RolesGrow(free, owner, owner0) && RolesGrow(free0, owner0, owner1) && forall g :: g in free0 ==> g in free
    ensures RolesGrow(free, owner, owner1) && forall g :: g in owner ==> g in owner1 && owner1[g] == owner[g]
  {
  }

  lemma CutWithout(free: seq<Frame>, mem: Memory, owner: Owners, free2: seq<Frame>, mem2: Memory, owner2: Owners,
                   d: Frame, lo: nat, hi: nat, f: Frame)
    requires CutBackBut(free, mem, owner, free2, mem2, owner2, d, lo, hi, true, f)
    requires Ok(free2, mem2, owner2) && IsDir(owner2, d) && InHand(free2, mem2, owner2, f)
    ensures CutBack(free, mem, owner, [f] + free2, mem2[f := Junk], owner2, d, lo, hi)
  {
    SameOwned(free2, mem2, owner2, mem2[f := Junk]);
  }

  /** A failed allocuvm puts the mapping back exactly when the range was unmapped before. */
  lemma RestoredExactly(free: seq<Frame>, mem: Memory, owner: Owners, free': seq<Frame>, mem': Memory, owner': Owners,
                        d: Frame, lo: nat, hi: nat)
    requires CutBack(free, mem, owner, free', mem', owner', d, lo, hi) && (hi <= LAST || hi <= lo)
    ensures (forall u: nat :: u < LAST ==> Get(mem', d, u) == Get(mem, d, u))
       <==> Clear(mem, d, lo, hi)
  {
  }

  /** No page from lo up to hi is mapped. */
  ghost predicate Clear(mem: Memory, d: Frame, lo: nat, hi: nat) {
    forall u: nat :: lo <= u < hi ==> Get(mem, d, u).Absent?
  }

  lemma NobodyOk(free: seq<Frame>, mem: Memory)
    requires NoDup(free) && forall f :: f in free ==> f > 0 && f in mem
    ensures Ok(free, mem, map[])
  {
  }

  lemma MappedOne(free: seq<Frame>, mem: Memory, owner: Owners, free': seq<Frame>, mem': Memory, owner': Owners,
                  d: Frame, v: nat, n: nat, f: Frame, perm: nat)
    requires MappedRange(free, mem, owner, free', mem', owner', d, v, n, f, perm) && n <= 1 && v < LAST
    ensures forall u: nat :: u < LAST ==> Get(mem', d, u) == if u == v && n == 1 then Pte(f, perm) else Get(mem, d, u)
  {
  }

  /**
    What the condition excludes: four frames, page 2 mapped, and a growth from 0 to 3 pages that runs
    out at page 1.  The cleanup takes page 2 with it.
   */
  method GrowthLosesPage() returns (m: Machine, d: Frame, r: GrowResult, ghost before: Memory)
    ensures fresh(m) && r.Failed? && Get(before, d, 2).Pte? && Get(m.mem, d, 2).Absent?
  {
    hide MappedRange, OthersSame, BytesKept, Conserved, RolesGrow, Ok, Get, Paid, Need, Present, Hardware, UserPage,
         CutBack, Empty;
    m := new Machine;
    m.free, m.mem, m.owner := [1, 2, 3, 4], map[1 := Junk, 2 := Junk, 3 := Junk, 4 := Junk], map[];
    NobodyOk(m.free, m.mem);
    var ok;
    ok, d := m.Kalloc();
    AddRoot(m.free, m.mem, m.owner, d);
    m.mem, m.owner := m.mem[d := Empty()], m.owner[d := Root(d)];
    ghost var empty := m.mem;
    var f;
    ok, f := m.Kalloc();
    SameOwned(m.free, m.mem, m.owner, m.mem[f := Bytes(7)]);
    m.mem := m.mem[f := Bytes(7)];
    ghost var free1, mem1, owner1 := m.free, m.mem, m.owner;
    var mapped, n := m.Mappages(d, 2 * PGSIZE, PGSIZE, f, WU);
    MappedOne(free1, mem1, owner1, m.free, m.mem, m.owner, d, 2, n, f, WU);
    assert NoPages(empty, d);
    assert mapped.Mapped? && n == 1;
    before := m.mem;
    ghost var free2, owner2 := m.free, m.owner;
    assert |m.free| <= 2;
    r := m.Allocuvm(d, 0, 3 * PGSIZE);
    assert Up(0) == 0 && Up(3 * PGSIZE) == 3;
    assert !r.Panicked?;
    assert Get(before, d, 2).Pte?;
    assert Hi(3 * PGSIZE, 0) == 3;
    assert !r.Grown?;
    GoneWithRange(free2, before, owner2, m.free, m.mem, m.owner, d, 0, 3, 2);
  }

  lemma GoneWithRange(free: seq<Frame>, mem: Memory, owner: Owners, free': seq<Frame>, mem': Memory, owner': Owners,
                      d: Frame, lo: nat, hi: nat, u: nat)
    requires CutBack(free, mem, owner, free', mem', owner', d, lo, hi) && lo <= u < hi && u < LAST
    ensures Get(mem', d, u).Absent?
  {
  }

  /** Pages lo up to hi were absent and now hold zeroes in frames that were free; all else is as it was. */
  ghost predicate GrownRange(free: seq<Frame>, mem: Memory, owner: Owners, free': seq<Frame>, mem': Memory,
                             owner': Owners, d: Frame, lo: nat, hi: nat)
  {
    && OthersSame(mem, owner, mem', owner', d) && BytesKept(free, mem, owner, mem')
    && Conserved(free, owner, free', owner') && RolesGrow(free, owner, owner')
    && (forall g :: g in free' ==> g in free)
    && (forall u: nat :: u < LAST && !(lo <= u < hi) ==> Get(mem', d, u) == Get(mem, d, u))
    && (forall u: nat :: lo <= u < hi ==> Get(mem, d, u).Absent? && NewPage(free, mem', d, u))
  }

  ghost predicate NewPage(free: seq<Frame>, mem': Memory, d: Frame, u: nat) {
    var p := Get(mem', d, u);
    p.Pte? && p.flags == WU && p.frame in free && p.frame in mem' && mem'[p.frame] == Bytes(0)
  }

  /** No page changed; at most one frame, not counting page tables, is out of the free list. */
  ghost predicate TriedOnce(free: seq<Frame>, mem: Memory, owner: Owners, free': seq<Frame>, mem': Memory,
                            owner': Owners, d: Frame, held: bool, f: Frame)
  {
    && OthersSame(mem, owner, mem', owner', d) && BytesKept(free, mem, owner, mem') && RolesGrow(free, owner, owner')
    && (forall g :: g in free || g in owner <==> g in free' || g in owner' || (held && g == f))
    && (forall g :: g in free' ==> g in free)
    && (forall u: nat :: u < LAST ==> Get(mem', d, u) == Get(mem, d, u))
  }

  lemma NothingTried(free: seq<Frame>, mem: Memory, owner: Owners, d: Frame, f: Frame)
    ensures TriedOnce(free, mem, owner, free, mem, owner, d, false, f)
  {
  }

  lemma OnceTried(free: seq<Frame>, mem: Memory, owner: Owners, free1: seq<Frame>, mem1: Memory,
                  free2: seq<Frame>, mem2: Memory, owner2: Owners, d: Frame, v: nat, f: Frame, x: Content, perm: nat)
    requires Ok(free, mem, owner) && IsDir(owner, d) && free == [f] + free1
    requires mem1 == mem[f := x] && f !in owner && v < USER
    requires MappedRange(free1, mem1, owner, free2, mem2, owner2, d, v, 0, f, perm)
    ensures TriedOnce(free, mem, owner, free2, mem2, owner2, d, true, f)
  {
    hide Ok, Get;
    SameOwned(free, mem, owner, mem1);
  }

  lemma OnceGrown(free: seq<Frame>, mem: Memory, owner: Owners, free1: seq<Frame>, mem1: Memory,
                  free2: seq<Frame>, mem2: Memory, owner2: Owners, d: Frame, v: nat, f: Frame)
    requires Ok(free, mem, owner) && IsDir(owner, d) && free == [f] + free1
    requires mem1 == mem[f := Bytes(0)] && f !in owner && v < USER
    requires MappedRange(free1, mem1, owner, free2, mem2, owner2, d, v, 1, f, WU)
    ensures GrownRange(free, mem, owner, free2, mem2, owner2, d, v, v + 1)
  {
    hide OthersSame, Get, BytesKept, Conserved, RolesGrow, GrownRange;
    SameOwned(free, mem, owner, mem1);
    GrownOthers(free, mem, owner, free1, mem1, free2, mem2, owner2, d, v, f);
    GrownPage(free, mem, owner, free1, mem1, free2, mem2, owner2, d, v, f);
    assert Conserved(free, owner, free, owner) by { OnlyItself(free, owner); }
    GrownParts(free, mem, owner, free, owner, free2, mem2, owner2, d, v, v + 1);
  }

  lemma OnlyItself(free: seq<Frame>, owner: Owners)
    ensures Conserved(free, owner, free, owner)
  {
  }

  lemma GrownOthers(free: seq<Frame>, mem: Memory, owner: Owners, free1: seq<Frame>, mem1: Memory,
                    free2: seq<Frame>, mem2: Memory, owner2: Owners, d: Frame, v: nat, f: Frame)
    requires free == [f] + free1 && mem1 == mem[f := Bytes(0)] && f !in owner && v < USER
    requires MappedRange(free1, mem1, owner, free2, mem2, owner2, d, v, 1, f, WU)
    ensures OthersSame(mem, owner, mem2, owner2, d) && BytesKept(free, mem, owner, mem2)
    ensures RolesGrow(free, owner, owner2) && Conserved(free, owner, free2, owner2)
    ensures forall g :: g in free2 ==> g in free
  {
  }

  lemma GrownPage(free: seq<Frame>, mem: Memory, owner: Owners, free1: seq<Frame>, mem1: Memory,
                  free2: seq<Frame>, mem2: Memory, owner2: Owners, d: Frame, v: nat, f: Frame)
    requires Ok(free, mem, owner) && free == [f] + free1 && mem1 == mem[f := Bytes(0)] && f !in owner && v < USER
    requires MappedRange(free1, mem1, owner, free2, mem2, owner2, d, v, 1, f, WU)
    requires forall u: nat :: u < LAST ==> Get(mem1, d, u) == Get(mem, d, u)
    ensures forall u: nat :: u < LAST && !(v <= u < v + 1) ==> Get(mem2, d, u) == Get(mem, d, u)
    ensures Get(mem, d, v).Absent? && NewPage(free, mem2, d, v)
  {
    hide OthersSame, Get;
    assert f !in free1 by {
      assert free[0] == f && forall i :: 0 <= i < |free1| ==> free1[i] == free[i + 1];
    }
    assert Get(mem2, d, v) == Pte(f, WU);
  }

  lemma RemapWasThere(free: seq<Frame>, mem: Memory, owner: Owners, free1: seq<Frame>, mem1: Memory, d: Frame, v: nat,
                      f: Frame)
    requires Ok(free, mem, owner) && IsDir(owner, d) && mem1 == mem[f := Bytes(0)] && f in free && v < USER
    ensures Get(mem1, d, v) == Get(mem, d, v)
  {
  }

  /** Pages needed for that many bytes: PGROUNDUP divided by PGSIZE. */
  function Up(n: nat): nat { (n + PGSIZE - 1) / PGSIZE }

  function Hi(oldsz: nat, newsz: nat): nat { if newsz < oldsz then Up(oldsz) else Up(newsz) }

  function Least(a: nat, b: nat): nat { if a < b then a else b }

  lemma InsideUser(p: nat, size: nat)
    requires p * PGSIZE < size <= KERNBASE
    ensures p < Up(size) <= USER && p * PGSIZE / PGSIZE == p && p < (p / NENTRIES + 1) * NENTRIES
  {
  }

  lemma PastTheEnd(p: nat, size: nat)
    requires size <= p * PGSIZE
    ensures Up(size) <= p
  {
  }

  lemma SkipOrOne(free: seq<Frame>, mem: Memory, owner: Owners, free': seq<Frame>, mem': Memory, owner': Owners,
                  d: Frame, v: nat, done: nat, skip: bool)
    requires Ok(free', mem', owner') && IsDir(owner', d)
    requires skip ==> Entry(mem', d, v / NENTRIES).Absent? && free' == free && mem' == mem && owner' == owner
    requires skip ==> done <= (v / NENTRIES + 1) * NENTRIES
    requires !skip ==> Unmapped(free, mem, owner, free', mem', owner', d, v, v + 1) && done == v + 1
    ensures Unmapped(free, mem, owner, free', mem', owner', d, v, done)
  {
    if skip {
      forall u: nat | v <= u < done ensures Get(mem, d, u).Absent? {
        SkipIsSafe(mem, d, v, u);
      }
      UnmapAbsent(free, mem, owner, d, v, done);
    }
  }

  function Covered(va: nat, size: nat): nat {
    if size == 0 then 0 else (va + size - 1) / PGSIZE - va / PGSIZE + 1
  }

  /** n consecutive pages that were absent are mapped, no other page of any directory changed, no frame went missing. */
  ghost predicate MappedRange(free: seq<Frame>, mem: Memory, owner: Owners, free': seq<Frame>, mem': Memory,
                              owner': Owners, d: Frame, first: nat, n: nat, f: Frame, perm: nat)
  {
    && OthersSame(mem, owner, mem', owner', d)
    && BytesKept(free, mem, owner, mem')
    && (forall u: nat :: u < LAST ==>
          Get(mem', d, u) == if first <= u < first + n then Pte(f + (u - first), perm) else Get(mem, d, u))
    && (forall u: nat :: first <= u < first + n ==> Get(mem, d, u).Absent?)
    && (forall g :: g in free' || g in owner' <==> g in free || g in owner || Handed(f, first, n, g))
    && (forall g :: g in free' ==> g in free) && RolesGrow(free, owner, owner')
  }

  lemma SamePaid(free: seq<Frame>, mem: Memory, free': seq<Frame>, mem1: Memory, mem2: Memory, d: Frame, v: nat)
    requires Paid(free, mem, free', mem1, d, v, 1) && Present(mem2, d) == Present(mem1, d)
    ensures Paid(free, mem, free', mem2, d, v, 1)
  {
  }

  /** The processor reaches each mapped page with exactly the permissions asked for. */
  lemma RangeReached(free: seq<Frame>, mem: Memory, owner: Owners, free': seq<Frame>, mem': Memory, owner': Owners,
                     d: Frame, first: nat, n: nat, f: Frame, perm: nat)
    requires MappedRange(free, mem, owner, free', mem', owner', d, first, n, f, perm)
    requires Ok(free', mem', owner') && IsDir(owner', d) && first + n <= LAST
    ensures forall u: nat :: first <= u < first + n ==>
              Hardware(mem', d, u) == Reach(f + (u - first), AllowsWrite(perm), AllowsUser(perm))
  {
    hide Hardware, AllowsWrite, AllowsUser, Ok, OthersSame, BytesKept, RolesGrow, Handed, Get;
    forall u: nat | first <= u < first + n
      ensures Hardware(mem', d, u) == Reach(f + (u - first), AllowsWrite(perm), AllowsUser(perm))
    {
      HardwareIs(free', mem', owner', d, u);
    }
  }

  lemma BytesKeptTwice(free: seq<Frame>, mem: Memory, owner: Owners, free0: seq<Frame>, mem0: Memory, owner0: Owners,
                       mem1: Memory)
    requires BytesKept(free, mem, owner, mem0) && BytesKept(free0, mem0, owner0, mem1)
    requires RolesGrow(free, owner, owner0) && forall g :: g in free0 ==> g in free
    ensures BytesKept(free, mem, owner, mem1)
  {
  }

  lemma NothingMapped(free: seq<Frame>, mem: Memory, owner: Owners, d: Frame, first: nat, f: Frame, perm: nat)
    ensures MappedRange(free, mem, owner, free, mem, owner, d, first, 0, f, perm)
  {
  }

  lemma WalkRange(free: seq<Frame>, mem: Memory, owner: Owners, free': seq<Frame>, mem': Memory, owner': Owners,
                  d: Frame, first: nat, f: Frame, perm: nat)
    requires OthersSame(mem, owner, mem', owner', d) && BytesKept(free, mem, owner, mem')
    requires Conserved(free, owner, free', owner') && RolesGrow(free, owner, owner')
    requires forall g :: g in free' ==> g in free
    requires forall u: nat :: u < LAST ==> Get(mem', d, u) == Get(mem, d, u)
    ensures MappedRange(free, mem, owner, free', mem', owner', d, first, 0, f, perm)
  {
  }

  lemma SetRange(free: seq<Frame>, mem: Memory, owner: Owners, mem': Memory, owner': Owners, d: Frame, v: nat,
                 f: Frame, perm: nat)
    requires v < LAST && Get(mem, d, v).Absent? && (v < USER ==> InHand(free, mem, owner, f))
    requires OthersSame(mem, owner, mem', owner', d)
    requires BytesKept(free, mem, owner, mem') && owner' == Taking(owner, d, v, f)
    requires forall u: nat :: u < LAST ==> Get(mem', d, u) == if u == v then Pte(f, perm) else Get(mem, d, u)
    ensures MappedRange(free, mem, owner, free, mem', owner', d, v, 1, f, perm)
  {
  }

  /** The frames for the pages still to come stay in hand. */
  lemma StillInHand(free: seq<Frame>, mem: Memory, owner: Owners, free0: seq<Frame>, mem0: Memory, owner0: Owners,
                    d: Frame, first: nat, n: nat, f: Frame, perm: nat)
    requires MappedRange(free, mem, owner, free0, mem0, owner0, d, first, n, f, perm)
    requires first + n < USER ==> InHand(free, mem, owner, f + n) && mem[f + n].Bytes?
    ensures first + n < USER ==> InHand(free0, mem0, owner0, f + n) && mem0[f + n].Bytes?
  {
  }

  lemma OneMore(free: seq<Frame>, mem: Memory, owner: Owners, free0: seq<Frame>, mem0: Memory, owner0: Owners,
                free1: seq<Frame>, mem1: Memory, owner1: Owners, d: Frame, first: nat, n: nat, f: Frame, perm: nat)
    requires MappedRange(free, mem, owner, free0, mem0, owner0, d, first, n, f, perm) && first + n < LAST
    ensures MappedRange(free0, mem0, owner0, free1, mem1, owner1, d, first + n, 0, f + n, perm) ==>
              MappedRange(free, mem, owner, free1, mem1, owner1, d, first, n, f, perm)
    ensures MappedRange(free0, mem0, owner0, free1, mem1, owner1, d, first + n, 1, f + n, perm) ==>
              MappedRange(free, mem, owner, free1, mem1, owner1, d, first, n + 1, f, perm)
    ensures Get(mem, d, first + n) == Get(mem0, d, first + n)
  {
    hide MappedRange;
    if MappedRange(free0, mem0, owner0, free1, mem1, owner1, d, first + n, 0, f + n, perm) {
      MoreMapped(free, mem, owner, free0, mem0, owner0, free1, mem1, owner1, d, first, n, 0, f, perm);
    }
    if MappedRange(free0, mem0, owner0, free1, mem1, owner1, d, first + n, 1, f + n, perm) {
      MoreMapped(free, mem, owner, free0, mem0, owner0, free1, mem1, owner1, d, first, n, 1, f, perm);
    }
    assert Get(mem, d, first + n) == Get(mem0, d, first + n) by {
      NextUntouched(free, mem, owner, free0, mem0, owner0, d, first, n, f, perm);
    }
  }

  lemma NextUntouched(free: seq<Frame>, mem: Memory, owner: Owners, free0: seq<Frame>, mem0: Memory, owner0: Owners,
                      d: Frame, first: nat, n: nat, f: Frame, perm: nat)
    requires MappedRange(free, mem, owner, free0, mem0, owner0, d, first, n, f, perm) && first + n < LAST
    ensures Get(mem, d, first + n) == Get(mem0, d, first + n)
  {
  }

  lemma MoreMapped(free: seq<Frame>, mem: Memory, owner: Owners, free0: seq<Frame>, mem0: Memory, owner0: Owners,
                   free1: seq<Frame>, mem1: Memory, owner1: Owners, d: Frame, first: nat, n: nat, k: nat, f: Frame,
                   perm: nat)
    requires MappedRange(free, mem, owner, free0, mem0, owner0, d, first, n, f, perm)
    requires MappedRange(free0, mem0, owner0, free1, mem1, owner1, d, first + n, k, f + n, perm)
    requires first + n + k <= LAST
    ensures MappedRange(free, mem, owner, free1, mem1, owner1, d, first, n + k, f, perm)
  {
  }
}
