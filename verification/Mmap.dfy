/** Placement of memory mappings and the per-process table that records them. */
module Mmap {
  import opened Params

  const AREA_START := 0x6000_0000
  const AREA_END := 0x8000_0000
  const MAX_MAPPINGS := 32

  datatype Mapping = Mapping(addr: nat, length: nat)

  function Rounded(n: nat): nat { (n + PGSIZE - 1) / PGSIZE * PGSIZE }

  /** 32-bit unsigned arithmetic. */
  function Wrap(n: int): nat { n % TWO32 }

  predicate Aligned(a: nat) { a % PGSIZE == 0 }

  /** No page belongs to both. */
  predicate PageDisjoint(a: Mapping, b: Mapping) {
    a.addr + Rounded(a.length) <= b.addr || b.addr + Rounded(b.length) <= a.addr
  }

  /** Whole pages inside the area. */
  predicate Placed(m: Mapping) {
    Aligned(m.addr) && m.length > 0 && AREA_START <= m.addr && m.addr + Rounded(m.length) <= AREA_END
  }

  predicate TableOk(ms: seq<Mapping>) {
    && (forall i :: 0 <= i < |ms| ==> Placed(ms[i]))
    && (forall i, j :: 0 <= i < j < |ms| ==> PageDisjoint(ms[i], ms[j]))
  }

  /** A mapping of that many bytes can go there. */
  predicate Available(ms: seq<Mapping>, a: nat, length: nat) {
    Placed(Mapping(a, length)) && forall i :: 0 <= i < |ms| ==> PageDisjoint(ms[i], Mapping(a, length))
  }

  /** The test in the loop, with the new end not rounded. */
  predicate Overlaps(m: Mapping, a: nat, length: nat) {
    m.addr < a + length && m.addr + Rounded(m.length) > a
  }

  /** Because mappings start on page boundaries the unrounded test is as good as the rounded one. */
  lemma UnroundedSuffices(m: Mapping, a: nat, length: nat)
    requires Aligned(m.addr) && Aligned(a)
    ensures Overlaps(m, a, length) <==> !PageDisjoint(m, Mapping(a, length))
  {
  }

  lemma AreaSuffices(a: nat, length: nat)
    requires Aligned(a) && length > 0 && AREA_START <= a
    ensures a + length <= AREA_END <==> Placed(Mapping(a, length))
  {
  }

  /** munmap's test for the mapping that holds the range. */
  predicate Contains(m: Mapping, addr: nat, length: int) {
    m.addr <= addr && Wrap(addr + length) <= m.addr + m.length
  }

  /** The address, or -1, or a store past the end of the table. */
  datatype MmapResult = MappedAt(addr: nat) | Refused | Overrun

  /** Whether the pages of a shared file mapping reach the file, or there is nothing to write; or writei
      fails; or the file has been closed, which munmap answers with a panic. */
  datatype WriteBack = Written | NotWritten | Closed

  /** Failed is the return of -1. */
  datatype MunmapResult = Unmapped | Failed | Panicked

  class Mappings {
    const table: array<Mapping>
    var num: nat

    ghost predicate Valid()
      reads this, table
    {
      table.Length == MAX_MAPPINGS && num <= MAX_MAPPINGS && TableOk(table[..num])
    }

    constructor ()
      ensures Valid() && num == 0 && fresh(table)
    {
      table := new Mapping[MAX_MAPPINGS](i => Mapping(0, 0));
      num := 0;
    }

    /** The least address that fits; 0 only if there is none. */
    method FindAvailableAddress(length: nat) returns (addr: nat)
      requires Valid() && length > 0
      ensures addr != 0 ==> Available(table[..num], addr, length)
      ensures forall a: nat :: a < addr || addr == 0 ==> !Available(table[..num], a, length)
    {
      hide Rounded, Aligned, TableOk, Available, Placed;
      addr := AREA_START;
      assert Aligned(AREA_START) by { StartAligned(); }
      NoneBelow(table[..num], length);
      while addr + length <= AREA_END
        invariant Aligned(addr) && AREA_START <= addr
        invariant forall a: nat :: a < addr ==> !Available(table[..num], a, length)
        decreases AREA_END - addr
      {
        var overlap := OverlapsAny(addr, length);
        if !overlap {
          return;
        }
        StepOver(table[..num], addr, length);
        addr := addr + PGSIZE;
      }
      NoneAbove(table[..num], addr, length);
      return 0;
    }

    /** The inner loop. */
    method OverlapsAny(addr: nat, length: nat) returns (overlap: bool)
      requires Valid() && Aligned(addr) && length > 0 && AREA_START <= addr && addr + length <= AREA_END
      ensures overlap <==> !Available(table[..num], addr, length)
    {
      hide Rounded, Aligned;
      AreaSuffices(addr, length);
      var i := 0;
      while i < num
        invariant 0 <= i <= num && forall j :: 0 <= j < i ==> PageDisjoint(table[j], Mapping(addr, length))
      {
        assert Placed(table[..num][i]);
        UnroundedSuffices(table[i], addr, length);
        var existingEnd := table[i].addr + Rounded(table[i].length);
        if table[i].addr < addr + length && existingEnd > addr {
          assert !PageDisjoint(table[..num][i], Mapping(addr, length));
          return true;
        }
        i := i + 1;
      }
      return false;
    }

    /** mmap without MAP_FIXED; argumentsOk stands for the tests on flags, hint and descriptor.  Nothing
        keeps a mapping more than the table holds from being stored past its end. */
    method Mmap(length: int, argumentsOk: bool) returns (r: MmapResult)
      requires Valid()
      modifies this, table
      ensures Valid() && (!r.MappedAt? ==> num == old(num) && table[..num] == old(table[..num]))
      ensures r.MappedAt? ==>
                && length > 0 && Available(old(table[..num]), r.addr, length)
                && table[..num] == old(table[..num]) + [Mapping(r.addr, length)]
      ensures r.Refused? <==> length <= 0 || !argumentsOk || forall a: nat :: !Available(old(table[..num]), a, length)
      ensures r.Overrun? ==> old(num) == MAX_MAPPINGS
      ensures r.MappedAt? ==> old(num) < MAX_MAPPINGS
    {
      if length <= 0 || !argumentsOk {
        return Refused;
      }
      var address := FindAvailableAddress(length);
      if address == 0 {
        return Refused;
      }
      if num == MAX_MAPPINGS {
        return Overrun;
      }
      AddedOk(table[..num], Mapping(address, length));
      table[num] := Mapping(address, length);
      assert table[..num + 1] == old(table[..num]) + [Mapping(address, length)];
      num := num + 1;
      return MappedAt(address);
    }

    /**
      munmap's table update; `back` is what becomes of the pages if the first mapping is of a shared file.
      The first entry goes, and the call succeeds, if it is the one asked for.  So a mapping asked for
      is removed exactly when it is the first, and otherwise stays while the first is lost.
     */
    method Munmap(addr: nat, length: int, back: WriteBack) returns (r: MunmapResult)
      requires Valid()
      modifies this, table
      ensures Valid()
      ensures r.Unmapped? <==> old(num) > 0 && Contains(old(table[0]), addr, length) && back.Written?
      ensures r.Panicked? <==> old(num) > 0 && Contains(old(table[0]), addr, length) && back.Closed?
      ensures table[..num] == if old(num) == 0 || (Contains(old(table[0]), addr, length) && !back.Written?)
                              then old(table[..num]) else old(table[..num])[1..]
      ensures old(num) > 0 && 0 <= length && addr + length < TWO32 ==>
                (r.Unmapped? <==>
                   && old(table[0]).addr <= addr && addr + length <= old(table[0]).addr + old(table[0]).length
                   && back.Written?)
      ensures old(num) > 0 && Mapping(addr, if length < 0 then 0 else length) == old(table[0]) ==>
                (r.Unmapped? <==> back.Written?)
      ensures back.Written? && 0 < length && addr + length < TWO32 ==>
                forall i :: 0 <= i < old(num) && Contains(old(table[i]), addr, length) ==>
                  && (r.Unmapped? <==> i == 0)
                  && (old(table[i]) !in table[..num] <==> i == 0)
                  && old(table[0]) !in table[..num]
    {
      hide TableOk, Contains;
      OnlyOne(table[..num], addr, length);
      if num == 0 {
        return Failed;
      }
      OwnRange(table[..num], addr, length);
      var found := Contains(table[0], addr, length);
      if found && back.Closed? {
        return Panicked;
      }
      if found && back.NotWritten? {
        return Failed;
      }
      DropFirst();
      return if found then Unmapped else Failed;
    }

    /** The shift that fills the gap. */
    method DropFirst()
      requires Valid() && num > 0
      modifies this, table
      ensures Valid() && table[..num] == old(table[..num])[1..]
    {
      hide TableOk;
      ghost var before := table[..num];
      var k := 0;
      while k < num - 1
        invariant 0 <= k <= num - 1 && num == old(num)
        invariant forall j :: 0 <= j < k ==> table[j] == before[j + 1]
        invariant forall j :: k <= j < num ==> table[j] == before[j]
      {
        table[k] := table[k + 1];
        k := k + 1;
      }
      num := num - 1;
      assert table[..num] == before[1..];
      TailOk(before);
    }
  }

  /** Only the first mapping or only another one holds the range, and no other is equal to the first. */
  lemma OnlyOne(ms: seq<Mapping>, addr: nat, length: int)
    requires TableOk(ms)
    ensures forall i :: 0 < i < |ms| && 0 < length && addr + length < TWO32 && Contains(ms[i], addr, length) ==>
                          !Contains(ms[0], addr, length)
    ensures ms != [] ==> ms[0] !in ms[1..]
    ensures forall i :: 0 < i < |ms| ==> ms[i] in ms[1..]
  {
    forall i | 0 < i < |ms|
      ensures ms[i] != ms[0] && ms[i] in ms[1..]
      ensures 0 < length && addr + length < TWO32 && Contains(ms[i], addr, length) ==> !Contains(ms[0], addr, length)
    {
      assert PageDisjoint(ms[0], ms[i]) && Placed(ms[i]) && ms[i].length <= Rounded(ms[i].length);
      assert ms[0].length <= Rounded(ms[0].length);
      assert ms[1..][i - 1] == ms[i];
    }
  }

  /** Without wrap-around the test is what it says, and a mapping's own range does not wrap around. */
  lemma OwnRange(ms: seq<Mapping>, addr: nat, length: int)
    requires TableOk(ms) && ms != []
    ensures 0 <= length && addr + length < TWO32 ==>
              (Contains(ms[0], addr, length) <==> ms[0].addr <= addr && addr + length <= ms[0].addr + ms[0].length)
    ensures ms[0].length > 0 && ms[0].addr + ms[0].length < TWO32
  {
    assert Placed(ms[0]) && ms[0].length <= Rounded(ms[0].length);
  }

  /** Two mappings, and munmap of the second: it says -1, keeps the second and loses the first. */
  method MunmapLosesFirst() returns (p: Mappings, first: MmapResult, second: MmapResult, r: MunmapResult)
    ensures fresh(p) && first.MappedAt? && second.MappedAt? && r.Failed?
    ensures p.num == 1 && p.table.Length == MAX_MAPPINGS && p.table[0] == Mapping(second.addr, PGSIZE)
  {
    p := new Mappings();
    assert Available(p.table[..0], AREA_START, PGSIZE);
    first := p.Mmap(PGSIZE, true);
    var next := if first.addr == AREA_START then AREA_START + PGSIZE else AREA_START;
    assert Available(p.table[..p.num], next, PGSIZE);
    second := p.Mmap(PGSIZE, true);
    ghost var before := p.table[..p.num];
    assert before == [Mapping(first.addr, PGSIZE), Mapping(second.addr, PGSIZE)];
    r := p.Munmap(second.addr, PGSIZE, Written);
    assert p.table[..p.num] == before[1..] == [Mapping(second.addr, PGSIZE)];
  }

  lemma StartAligned()
    ensures Aligned(AREA_START)
  {
  }

  lemma NoneBelow(ms: seq<Mapping>, length: nat)
    ensures forall a: nat :: a < AREA_START ==> !Available(ms, a, length)
  {
  }

  lemma StepOver(ms: seq<Mapping>, addr: nat, length: nat)
    requires Aligned(addr) && !Available(ms, addr, length) && forall a: nat :: a < addr ==> !Available(ms, a, length)
    ensures Aligned(addr + PGSIZE) && forall a: nat :: a < addr + PGSIZE ==> !Available(ms, a, length)
  {
  }

  lemma NoneAbove(ms: seq<Mapping>, addr: nat, length: nat)
    requires Aligned(addr) && AREA_START <= addr && addr + length > AREA_END && length > 0
    requires forall a: nat :: a < addr ==> !Available(ms, a, length)
    ensures forall a: nat :: !Available(ms, a, length)
  {
  }

  lemma AddedOk(ms: seq<Mapping>, m: Mapping)
    requires TableOk(ms) && Available(ms, m.addr, m.length)
    ensures TableOk(ms + [m])
  {
  }

  lemma TailOk(ms: seq<Mapping>)
    requires TableOk(ms) && ms != []
    ensures TableOk(ms[1..])
  {
  }
}
