/**
  malloc and free of umalloc.c, the storage allocator of section 8.7 of K&R (2nd ed.):
  the loops that walk the circular free list, and the pointer updates in raw memory.
  The answer of sbrk is a parameter.
 */
module Umalloc {
  import opened Params
  import opened Wrappers
  import opened HeapSpec

  const UNIT := 8                  // sizeof(Header)
  const MINCORE := 4096

  /** Header plus payload, in units; the sum wraps like a C uint. */
  function NUnits(nbytes: nat): (n: nat)
    ensures n >= 1
  {
    (nbytes + UNIT - 1) % TWO32 / UNIT + 1
  }

  /** The payload of the block handed out holds nbytes exactly when the rounding did not wrap. */
  lemma PayloadFits(nbytes: nat)
    requires nbytes < TWO32
    ensures (NUnits(nbytes) - 1) * UNIT >= nbytes <==> nbytes <= TWO32 - UNIT
  {
    if nbytes <= TWO32 - UNIT {
      assert (nbytes + UNIT - 1) % TWO32 == nbytes + UNIT - 1;
    } else {
      assert (nbytes + UNIT - 1) % TWO32 == nbytes + UNIT - 1 - TWO32;
    }
  }

  /** The units morecore asks for. */
  function Chunk(nu: nat): nat { if nu < MINCORE then MINCORE else nu }

  /** What sbrk is passed: the product in a uint, read as an int. */
  function SbrkArg(nu: nat): int {
    var bytes := nu * UNIT % TWO32;
    if bytes < TWO32 / 2 then bytes else bytes - TWO32
  }

  /** The chunk is as long as its header will say exactly when its bytes fit in an int. */
  lemma ChunkFits(nu: nat)
    ensures SbrkArg(nu) == nu * UNIT <==> nu * UNIT < TWO32 / 2
  {
    if nu * UNIT < TWO32 { assert nu * UNIT % TWO32 == nu * UNIT; }
  }

  /** If only k of its n units were obtained, the heap with the new block is no partition. */
  lemma ShortChunk(base: nat, blocks: set<nat>, mem: Memory, owned: set<nat>, p: nat, h: Header, k: nat)
    requires k < h.size && forall u :: u in owned ==> u < p
    ensures !Partition(base, blocks + {p}, mem[p := h], owned + Units(p, k))
  {
    assert Covers(mem[p := h], p, p + k);
    assert Covered(blocks + {p}, mem[p := h], p + k);
    assert p + k !in Units(p, k);
  }

  // ---- What free does ---------------------------------------------------------------------

  function FreedMem(mem: Memory, p: nat, bp: nat): Memory
    requires p in mem && bp in mem && mem[p].ptr in mem
  {
    var nx := mem[p].ptr;
    var m := if bp + mem[bp].size == nx then MergeMem(mem, bp, nx) else mem[bp := mem[bp].(ptr := nx)];
    if p + m[p].size == bp then MergeMem(m, p, bp) else m[p := m[p].(ptr := bp)]
  }

  ghost predicate JoinsNext(ring: seq<nat>, mem: Memory, j: nat, bp: nat) {
    j + 1 < |ring| && bp in mem && bp + mem[bp].size == ring[j + 1]
  }

  ghost predicate JoinsPrev(ring: seq<nat>, mem: Memory, j: nat, bp: nat) {
    1 <= j < |ring| && ring[j] in mem && ring[j] + mem[ring[j]].size == bp
  }

  ghost function FreedRing(ring: seq<nat>, mem: Memory, j: nat, bp: nat): seq<nat>
    requires j < |ring|
  {
    var r := InsertRing(ring, j, bp);
    var r := if JoinsNext(ring, mem, j, bp) then MergeRing(r, j + 1) else r;
    if JoinsPrev(ring, mem, j, bp) then MergeRing(r, j) else r
  }

  /** The heap is in order, and the only free neighbours that may touch are the pair at `open`. */
  ghost predicate HeapBut(base: nat, ring: seq<nat>, live: set<nat>, mem: Memory, owned: set<nat>, open: set<nat>) {
    Heap(base, ring, live, mem, owned) && Gaps(ring, mem, open)
  }

  lemma RingOfHeap(base: nat, ring: seq<nat>, live: set<nat>, mem: Memory, owned: set<nat>, open: set<nat>)
    requires HeapBut(base, ring, live, mem, owned, open)
    ensures Heap(base, ring, live, mem, owned) && Ring(base, ring, mem)
  {
  }

  lemma Inserted(base: nat, ring: seq<nat>, live: set<nat>, mem: Memory, owned: set<nat>, j: nat, bp: nat)
    requires HeapBut(base, ring, live, mem, owned, {}) && Belongs(ring, j, bp) && bp in live
    ensures bp in mem && ring[j] in mem && bp != ring[j]
    ensures HeapBut(base, InsertRing(ring, j, bp), live - {bp}, InsertMem(mem, ring[j], bp), owned, {j, j + 1})
  {
    InsertKeeps(base, ring, live, mem, owned, j, bp);
    InsertGaps(base, ring, mem, j, bp);
  }

  /** Joining the pair at i, when they touch. */
  lemma Joined(base: nat, ring: seq<nat>, live: set<nat>, mem: Memory, owned: set<nat>, i: nat, open: set<nat>)
    requires HeapBut(base, ring, live, mem, owned, open + {i}) && 1 <= i && i + 1 < |ring|
    requires forall k :: k in open ==> k < i
    requires ring[i] in mem && ring[i + 1] in mem && ring[i] + mem[ring[i]].size == ring[i + 1]
    ensures HeapBut(base, MergeRing(ring, i), live, MergeMem(mem, ring[i], ring[i + 1]), owned, open)
  {
    hide Heap, Gaps, Ring, MergeRing;
    RingOfHeap(base, ring, live, mem, owned, open + {i});
    MergeKeeps(base, ring, live, mem, owned, i);
    MergeGaps(base, ring, mem, i, open + {i}, open);
  }

  /** Not joining the pair at i, when they do not touch. */
  lemma Unjoined(base: nat, ring: seq<nat>, live: set<nat>, mem: Memory, owned: set<nat>, i: nat, open: set<nat>)
    requires HeapBut(base, ring, live, mem, owned, open + {i})
    requires 1 <= i && i + 1 < |ring| && ring[i] in mem ==> ring[i] + mem[ring[i]].size != ring[i + 1]
    ensures HeapBut(base, ring, live, mem, owned, open)
  {
    CloseGap(base, ring, live, mem, owned, i, open);
  }

  /** The code compares addresses; these are the neighbours it finds. */
  lemma JoinAddresses(base: nat, ring: seq<nat>, live: set<nat>, mem: Memory, owned: set<nat>, j: nat, bp: nat)
    requires HeapBut(base, ring, live, mem, owned, {}) && Belongs(ring, j, bp) && bp in live
    ensures j < |ring| && bp in mem && ring[j] in mem && mem[ring[j]].ptr in mem && ring[j] < bp
    ensures j + 1 < |ring| ==> ring[j + 1] == mem[ring[j]].ptr && bp < ring[j + 1]
    ensures JoinsNext(ring, mem, j, bp) <==> bp + mem[bp].size == mem[ring[j]].ptr
    ensures JoinsPrev(ring, mem, j, bp) <==> ring[j] + mem[ring[j]].size == bp
  {
    assert mem[ring[j]].ptr == Next(ring, j);
  }

  lemma InsertIndices(ring: seq<nat>, j: nat, bp: nat)
    requires j < |ring|
    ensures var r := InsertRing(ring, j, bp);
            r[j] == ring[j] && r[j + 1] == bp && |r| == |ring| + 1 && (j + 1 < |ring| ==> r[j + 2] == ring[j + 1])
  {
  }

  function NextMem(mem: Memory, p: nat, bp: nat): Memory
    requires p in mem && bp in mem && mem[p].ptr in mem
  {
    var i := InsertMem(mem, p, bp);
    if bp + mem[bp].size == mem[p].ptr then MergeMem(i, bp, mem[p].ptr) else i
  }

  /** First half: the block is on the list, joined to its upper neighbour if they touch. */
  lemma FreeUpper(base: nat, ring: seq<nat>, live: set<nat>, mem: Memory, owned: set<nat>, j: nat, bp: nat)
    returns (r: seq<nat>)
    requires HeapBut(base, ring, live, mem, owned, {}) && Belongs(ring, j, bp) && bp in live
    ensures r == (var i := InsertRing(ring, j, bp); if JoinsNext(ring, mem, j, bp) then MergeRing(i, j + 1) else i)
    ensures bp in mem && ring[j] in mem && mem[ring[j]].ptr in mem
    ensures HeapBut(base, r, live - {bp}, NextMem(mem, ring[j], bp), owned, {j})
    ensures j + 1 < |r| && r[j] == ring[j] && r[j + 1] == bp
  {
    hide HeapBut, Belongs;
    JoinAddresses(base, ring, live, mem, owned, j, bp);
    Inserted(base, ring, live, mem, owned, j, bp);
    InsertIndices(ring, j, bp);
    var i, m := InsertRing(ring, j, bp), InsertMem(mem, ring[j], bp);
    assert {j} + {j + 1} == {j, j + 1};
    hide InsertRing;
    if JoinsNext(ring, mem, j, bp) {
      Joined(base, i, live - {bp}, m, owned, j + 1, {j});
      r := MergeRing(i, j + 1);
    } else {
      Unjoined(base, i, live - {bp}, m, owned, j + 1, {j});
      r := i;
    }
  }

  /** free: the block joins the free list and its neighbours; everything else stays in place. */
  lemma FreeKeeps(base: nat, ring: seq<nat>, live: set<nat>, mem: Memory, owned: set<nat>, j: nat, bp: nat)
    requires HeapBut(base, ring, live, mem, owned, {}) && Belongs(ring, j, bp) && bp in live
    ensures bp in mem && ring[j] in mem && mem[ring[j]].ptr in mem
    ensures HeapBut(base, FreedRing(ring, mem, j, bp), live - {bp}, FreedMem(mem, ring[j], bp), owned, {})
    ensures ring[j] in FreedRing(ring, mem, j, bp)
  {
    hide HeapBut, Belongs, InsertRing;
    JoinAddresses(base, ring, live, mem, owned, j, bp);
    var r := FreeUpper(base, ring, live, mem, owned, j, bp);
    var m := NextMem(mem, ring[j], bp);
    assert {} + {j} == {j};
    if JoinsPrev(ring, mem, j, bp) {
      Joined(base, r, live - {bp}, m, owned, j, {});
      assert |MergeRing(r, j)| == |r| - 1 && MergeRing(r, j)[j] == r[j];
      assert MergeMem(m, ring[j], bp) == FreedMem(mem, ring[j], bp);
    } else {
      Unjoined(base, r, live - {bp}, m, owned, j, {});
      assert m == FreedMem(mem, ring[j], bp);
    }
  }

  /** Other live blocks keep their headers, and some free block now holds at least the freed one. */
  lemma FreeFrame(base: nat, ring: seq<nat>, live: set<nat>, mem: Memory, owned: set<nat>, j: nat, bp: nat)
    requires HeapBut(base, ring, live, mem, owned, {}) && Belongs(ring, j, bp) && bp in live
    requires bp in mem && ring[j] in mem && mem[ring[j]].ptr in mem
    ensures var m := FreedMem(mem, ring[j], bp); LiveKept(live - {bp}, mem, m)
    ensures HasBlock(FreedRing(ring, mem, j, bp), FreedMem(mem, ring[j], bp), mem[bp].size)
  {
    hide HeapBut, InsertRing;
    FreeFrameLive(base, ring, live, mem, owned, j, bp);
    JoinAddresses(base, ring, live, mem, owned, j, bp);
    var r := FreeUpper(base, ring, live, mem, owned, j, bp);
    var r', m' := FreedRing(ring, mem, j, bp), FreedMem(mem, ring[j], bp);
    if JoinsPrev(ring, mem, j, bp) {
      assert |r'| == |r| - 1 && r'[j] == ring[j] && m'[ring[j]].size >= mem[bp].size;
    } else {
      assert r'[j + 1] == bp && m'[bp].size >= mem[bp].size;
    }
  }

  lemma FreeFrameLive(base: nat, ring: seq<nat>, live: set<nat>, mem: Memory, owned: set<nat>, j: nat, bp: nat)
    requires HeapBut(base, ring, live, mem, owned, {}) && Belongs(ring, j, bp) && bp in live
    requires bp in mem && ring[j] in mem && mem[ring[j]].ptr in mem
    ensures LiveKept(live - {bp}, mem, FreedMem(mem, ring[j], bp))
  {
    hide Heap, Gaps, FreedMem;
    forall a, u | a in live - {bp} && Covers(mem, a, u) && u in mem
      ensures u in FreedMem(mem, ring[j], bp) && FreedMem(mem, ring[j], bp)[u] == mem[u]
    {
      OutsideLive(base, ring, live, mem, owned, a, u, bp);
      OutsideRing(base, ring, live, mem, owned, a, u, j);
      FreedElsewhere(mem, ring[j], bp, u);
    }
  }

  lemma FreedElsewhere(mem: Memory, p: nat, bp: nat, u: nat)
    requires p in mem && bp in mem && mem[p].ptr in mem && u in mem && u != p && u != bp
    ensures u in FreedMem(mem, p, bp) && FreedMem(mem, p, bp)[u] == mem[u]
  {
  }

  /** Every unit of a live block holds what it held, header and payload. */
  ghost predicate LiveKept(live: set<nat>, mem: Memory, mem': Memory) {
    forall a, u :: a in live && Covers(mem, a, u) && u in mem ==> u in mem' && mem'[u] == mem[u]
  }

  lemma LiveKeptTwice(live: set<nat>, m0: Memory, m1: Memory, m2: Memory)
    requires LiveKept(live, m0, m1) && LiveKept(live, m1, m2)
    ensures LiveKept(live, m0, m2)
  {
    forall a, u | a in live && Covers(m0, a, u) && u in m0 ensures u in m2 && m2[u] == m0[u] {
      assert Covers(m0, a, a);
      assert Covers(m1, a, u);
    }
  }

  lemma OutsideLive(base: nat, ring: seq<nat>, live: set<nat>, mem: Memory, owned: set<nat>, a: nat, u: nat, b: nat)
    requires Heap(base, ring, live, mem, owned) && a in live && b in live && a != b && Covers(mem, a, u)
    ensures u != b
  {
    BlocksApart(base, FreeBlocks(ring) + live, mem, owned, a, b, u);
  }

  lemma BlocksApart(base: nat, blocks: set<nat>, mem: Memory, owned: set<nat>, a: nat, b: nat, u: nat)
    requires Partition(base, blocks, mem, owned) && a in blocks && b in blocks && a != b && Covers(mem, a, u)
    ensures u != b && !Covers(mem, b, u)
  {
    hide Covered;
  }

  lemma OutsideRing(base: nat, ring: seq<nat>, live: set<nat>, mem: Memory, owned: set<nat>, a: nat, u: nat, j: nat)
    requires Heap(base, ring, live, mem, owned) && a in live && j < |ring| && Covers(mem, a, u)
    ensures u != ring[j] && (j >= 1 ==> !Covers(mem, ring[j], u))
  {
    hide Covers, Partition, Sorted;
    if j >= 1 {
      assert ring[j] in FreeBlocks(ring);
      BlocksApart(base, FreeBlocks(ring) + live, mem, owned, a, ring[j], u);
    } else {
      BlockAbove(base, FreeBlocks(ring) + live, mem, owned, a, u);
    }
  }

  lemma BlockAbove(base: nat, blocks: set<nat>, mem: Memory, owned: set<nat>, a: nat, u: nat)
    requires Partition(base, blocks, mem, owned) && a in blocks && Covers(mem, a, u)
    ensures u > base
  {
  }

  ghost predicate HasBlock(ring: seq<nat>, mem: Memory, n: nat) {
    exists i :: 1 <= i < |ring| && ring[i] in mem && mem[ring[i]].size >= n
  }

  // ---- Where the search in free stops --------------------------------------------------------

  lemma Locate(base: nat, ring: seq<nat>, live: set<nat>, mem: Memory, owned: set<nat>, bp: nat) returns (j: nat)
    requires Heap(base, ring, live, mem, owned) && bp in live
    ensures Belongs(ring, j, bp)
  {
    hide Heap;
    LiveAbove(base, ring, live, mem, owned, bp);
    j := 0;
    while j + 1 < |ring| && ring[j + 1] < bp
      invariant j < |ring| && ring[j] < bp
    {
      j := j + 1;
    }
  }

  lemma LiveAbove(base: nat, ring: seq<nat>, live: set<nat>, mem: Memory, owned: set<nat>, bp: nat)
    requires Heap(base, ring, live, mem, owned) && bp in live
    ensures base < bp && ring != [] && ring[0] == base && forall i :: 1 <= i < |ring| ==> ring[i] != bp
  {
  }

  lemma RingNext(base: nat, ring: seq<nat>, mem: Memory, k: nat)
    requires Ring(base, ring, mem) && k < |ring|
    ensures ring[k] in mem && Succ(|ring|, k) < |ring| && mem[ring[k]].ptr == ring[Succ(|ring|, k)]
  {
  }

  predicate Stops(p: nat, ptr: nat, bp: nat) {
    (bp > p && bp < ptr) || (p >= ptr && (bp > p || bp < ptr))
  }

  lemma StopsThere(base: nat, ring: seq<nat>, mem: Memory, k: nat, j: nat, bp: nat)
    requires Ring(base, ring, mem) && Belongs(ring, j, bp) && k < |ring|
    ensures Stops(ring[k], mem[ring[k]].ptr, bp) <==> k == j
  {
    assert mem[ring[k]].ptr == Next(ring, k) && ring[0] < bp;
    assert k < j ==> k + 1 == j || ring[k + 1] < ring[j];
    assert k > j ==> k == j + 1 || ring[j + 1] < ring[k];
    assert k == 0 || ring[0] < ring[k];
    hide Sorted;
  }

  /** Steps along the ring from index i to index j. */
  function Dist(n: nat, i: nat, j: nat): nat
    requires i < n && j < n
  {
    if i <= j then j - i else n - i + j
  }

  function Succ(n: nat, i: nat): nat {
    if i + 1 < n then i + 1 else 0
  }

  class Allocator {
    const base: nat           // address of the static header
    var mem: Memory
    var freep: nat            // 0 is the null pointer
    ghost var ring: seq<nat>
    ghost var live: set<nat>
    ghost var owned: set<nat>

    ghost predicate Valid() reads this {
      && base > 0
      && (freep == 0 ==> ring == [] && live == {} && owned == {})
      && (freep != 0 ==> Sound())
    }

    ghost predicate Sound() reads this {
      && HeapBut(base, ring, live, mem, owned, {})
      && freep in ring && base > 0
    }

    constructor (base: nat)
      requires base > 0
      ensures Valid() && live == {} && owned == {} && freep == 0 && this.base == base
    {
      this.base, mem, freep := base, map[], 0;
      ring, live, owned := [], {}, {};
    }

    /** The loop at the head of free: find the free block after which bp belongs. */
    method Search(bp: nat) returns (p: nat, ghost j: nat)
      requires Sound() && bp in live
      ensures j < |ring| && p == ring[j] && Belongs(ring, j, bp)
    {
      hide HeapBut, Heap, Partition, Ring;
      p := freep;
      RingOfHeap(base, ring, live, mem, owned, {});
      j := Locate(base, ring, live, mem, owned, bp);
      ghost var k :| 0 <= k < |ring| && ring[k] == p;
      RingNext(base, ring, mem, k);
      StopsThere(base, ring, mem, k, j, bp);
      while !(bp > p && bp < mem[p].ptr)
        invariant 0 <= k < |ring| && p == ring[k] && p in mem
        invariant bp > p && bp < mem[p].ptr ==> k == j
        decreases Dist(|ring|, k, j)
      {
        RingNext(base, ring, mem, k);
        StopsThere(base, ring, mem, k, j, bp);
        if p >= mem[p].ptr && (bp > p || bp < mem[p].ptr) {
          break;
        }
        p := mem[p].ptr;
        k := Succ(|ring|, k);
        RingNext(base, ring, mem, k);
        StopsThere(base, ring, mem, k, j, bp);
      }
    }

    method Free(ap: nat)
      requires Sound() && ap >= 1 && ap - 1 in live
      modifies this
      ensures Sound() && live == old(live) - {ap - 1} && owned == old(owned)
      ensures LiveKept(live, old(mem), mem)
      ensures ap - 1 in old(mem) && HasBlock(ring, mem, old(mem)[ap - 1].size)
    {
      hide HeapBut, FreedRing, HasBlock, Belongs, LiveKept;
      var bp := ap - 1;
      var p, j := Search(bp);
      FreeKeeps(base, ring, live, mem, owned, j, bp);
      FreeFrame(base, ring, live, mem, owned, j, bp);
      ghost var freed, ring' := FreedMem(mem, p, bp), FreedRing(ring, mem, j, bp);
      if bp + mem[bp].size == mem[p].ptr {
        mem := mem[bp := Header(mem[mem[p].ptr].ptr, mem[bp].size + mem[mem[p].ptr].size)];
      } else {
        mem := mem[bp := mem[bp].(ptr := mem[p].ptr)];
      }
      if p + mem[p].size == bp {
        mem := mem[p := Header(mem[bp].ptr, mem[p].size + mem[bp].size)];
      } else {
        mem := mem[p := mem[p].(ptr := bp)];
      }
      freep := p;
      assert mem == freed;
      ring, live := ring', live - {bp};
    }

    /** `sbrk` is the address of the new chunk, None if the kernel refuses.  The model stops, short, where
        the chunk is shorter than its header would say. */
    method Morecore(nu: nat, sbrk: Option<nat>) returns (r: nat, short: bool)
      requires Sound() && nu >= 1
      requires sbrk.Some? ==> base < sbrk.value && forall u :: u in owned ==> u < sbrk.value
      modifies this
      ensures Sound() && live == old(live)
      ensures LiveKept(live, old(mem), mem)
      ensures short <==> sbrk.Some? && Chunk(nu) * UNIT >= TWO32 / 2
      ensures r == 0 <==> sbrk.None? || short
      ensures r == 0 ==> ring == old(ring) && mem == old(mem) && freep == old(freep) && owned == old(owned)
      ensures r != 0 ==> r == freep && HasBlock(ring, mem, nu) && old(owned) <= owned
    {
      hide HeapBut, Units, HasBlock, LiveKept;
      var n := Chunk(nu);
      ChunkFits(n);
      NothingWritten(ring, live, mem, base, nu);
      if sbrk.None? { return 0, false; }
      if SbrkArg(n) != n * UNIT { return 0, true; }
      var hp := sbrk.value;
      var h := Header(if hp in mem then mem[hp].ptr else 0, n);
      Grown(base, ring, live, mem, owned, hp, n, h);
      AboveHeap(base, ring, live, mem, owned, hp, h);
      mem := mem[hp := h];
      live, owned := live + {hp}, owned + Units(hp, n);
      Free(hp + 1);
      LiveKeptTwice(live, old(mem), old(mem)[hp := h], mem);
      Roomier(ring, mem, n, nu);
      SoundFreep();
      return freep, false;
    }

    /** Hand out a block of exactly NUnits(nbytes) units.  `sbrk` answers the one call malloc can make. */
    method Malloc(nbytes: nat, sbrk: Option<nat>) returns (r: Option<nat>, short: bool)
      requires Valid()
      requires sbrk.Some? ==> base < sbrk.value && forall u :: u in owned ==> u < sbrk.value
      modifies this
      ensures Sound() && old(owned) <= owned
      ensures r.None? ==> (sbrk.None? || short) && live == old(live)
      ensures short <==> !HasBlock(old(ring), old(mem), NUnits(nbytes))
                         && sbrk.Some? && Chunk(NUnits(nbytes)) * UNIT >= TWO32 / 2
      ensures r.Some? ==>
                && r.value >= 1 && r.value - 1 in mem && mem[r.value - 1].size == NUnits(nbytes)
                && r.value - 1 !in old(live) && live == old(live) + {r.value - 1}
      ensures LiveKept(old(live), old(mem), mem)
      ensures HasBlock(old(ring), old(mem), NUnits(nbytes)) ==> r.Some? && owned == old(owned)
    {
      hide HeapBut, HasBlock, LiveKept, Passed, Dist;
      short := false;
      var nunits := NUnits(nbytes);
      if freep == 0 {
        mem, freep := mem[base := Header(base, 0)], base;
        ring := [base];
        FreshHeap(base, mem);
      }
      var prevp := freep;
      ghost var f: nat :| 0 <= f < |ring| && ring[f] == freep;
      ghost var k: nat, q: nat, t: nat := f, Succ(|ring|, f), 0;
      RingAt(base, ring, live, mem, owned, k);
      var p := mem[prevp].ptr;
      var asked := false;
      ghost var ring0, mem0 := ring, mem;
      NothingWritten(old(ring), old(live), old(mem), base, nunits);
      PassedNone(ring, mem, nunits, f);
      while true
        invariant Sound() && live == old(live) && old(owned) <= owned && (!asked ==> owned == old(owned))
        invariant LiveKept(old(live), old(mem), mem)
        invariant !short && (asked ==> sbrk.Some? && Chunk(nunits) * UNIT < TWO32 / 2)
        invariant if asked then !HasBlock(ring0, mem0, nunits)
                  else ring == ring0 && mem == mem0 && Passed(ring, mem, nunits, q, f)
        invariant k < |ring| && q == Succ(|ring|, k) && f < |ring| && t < |ring|
        invariant prevp == ring[k] && p == ring[q] && freep == ring[f] && p in mem
        invariant asked ==> ring[t] in mem && mem[ring[t]].size >= nunits && Dist(|ring|, q, t) <= Dist(|ring|, q, f)
        decreases !asked, Dist(|ring|, q, f)
      {
        ghost var mem1 := mem;
        Nearer(|ring|, q, f, t);
        if mem[p].size >= nunits {
          FitsHere(base, ring, live, mem, owned, q, nunits);
          r := Take(prevp, p, nunits, k);
          LiveKeptTwice(old(live), old(mem), mem1, mem);
          return;
        }
        if p == freep {
          DistinctIndices(base, ring, live, mem, owned, q, f);
          assert !asked;
          PassedAll(ring, mem, nunits, q);
          p, short := Morecore(nunits, sbrk);
          LiveKeptTwice(old(live), old(mem), mem1, mem);
          if p == 0 { return None, short; }
          asked := true;
          f :| 0 <= f < |ring| && ring[f] == freep;
          t := BigBlock(ring, mem, nunits);
          q := f;
          Nearer(|ring|, q, f, t);
        } else if !asked {
          PassedNext(ring, mem, nunits, q, f);
        }
        RingAt(base, ring, live, mem, owned, q);
        prevp, p := p, mem[p].ptr;
        k, q := q, Succ(|ring|, q);
      }
    }

    /** The block p, after prevp on the free list, is large enough: unlink it or cut off its tail. */
    method Take(prevp: nat, p: nat, nunits: nat, ghost k: nat) returns (r: Option<nat>)
      requires Sound() && k < |ring| && prevp == ring[k] && p == ring[Succ(|ring|, k)]
      requires p in mem && mem[p].size >= nunits >= 1
      modifies this
      ensures Sound() && owned == old(owned)
      ensures r.Some? && r.value >= 1 && r.value - 1 in mem && mem[r.value - 1].size == nunits
      ensures r.value - 1 !in old(live) && live == old(live) + {r.value - 1}
      ensures LiveKept(old(live), old(mem), mem)
    {
      hide HeapBut, LiveKept;
      RingAt(base, ring, live, mem, owned, k);
      TakeIndex(base, ring, live, mem, owned, k);
      freep := prevp;
      if mem[p].size == nunits {
        TookWhole(base, ring, live, mem, owned, k);
        UnlinkLive(base, ring, live, mem, owned, k, mem[prevp].(ptr := mem[p].ptr));
        mem := mem[prevp := mem[prevp].(ptr := mem[p].ptr)];
        ring, live := MergeRing(ring, k), live + {p};
        return Some(p + 1);
      } else {
        TookTail(base, ring, live, mem, owned, k + 1, nunits);
        SplitLive(base, ring, live, mem, owned, k + 1, nunits);
        ghost var mem0 := mem;
        mem := mem[p := mem[p].(size := mem[p].size - nunits)];
        var q := p + mem[p].size;
        mem := mem[q := Header(if q in mem then mem[q].ptr else 0, nunits)];
        assert q == TailOf(mem0, p, nunits) && mem == SplitMem(mem0, p, nunits);
        live := live + {q};
        return Some(q + 1);
      }
    }

    lemma SoundFreep()
      requires Sound()
      ensures freep != 0
    {
      FreepPositive(base, ring, mem, freep);
    }
  }

  /** malloc(0xFFFFFFF8): the units fit the request, and sbrk is asked for no bytes at all. */
  method HugeRequest(sbrk: nat) returns (a: Allocator, r: Option<nat>, short: bool)
    requires sbrk > 1
    ensures fresh(a) && short && NUnits(0xFFFF_FFF8) == 0x2000_0000 && SbrkArg(0x2000_0000) == 0
  {
    hide HeapBut, LiveKept;
    a := new Allocator(1);
    r, short := a.Malloc(0xFFFF_FFF8, Some(sbrk));
  }

  lemma FitsHere(base: nat, ring: seq<nat>, live: set<nat>, mem: Memory, owned: set<nat>, q: nat, n: nat)
    requires HeapBut(base, ring, live, mem, owned, {}) && q < |ring| && ring[q] in mem && mem[ring[q]].size >= n >= 1
    ensures q >= 1 && HasBlock(ring, mem, n)
  {
  }

  lemma UnlinkLive(base: nat, ring: seq<nat>, live: set<nat>, mem: Memory, owned: set<nat>, k: nat, h: Header)
    requires HeapBut(base, ring, live, mem, owned, {}) && k < |ring| && ring[k] in mem
    ensures LiveKept(live, mem, mem[ring[k] := h])
  {
    forall a, u | a in live && Covers(mem, a, u) ensures u != ring[k] {
      OutsideRing(base, ring, live, mem, owned, a, u, k);
    }
  }

  lemma SplitLive(base: nat, ring: seq<nat>, live: set<nat>, mem: Memory, owned: set<nat>, k: nat, n: nat)
    requires HeapBut(base, ring, live, mem, owned, {}) && 1 <= k < |ring|
    requires ring[k] in mem && 1 <= n < mem[ring[k]].size
    ensures LiveKept(live, mem, SplitMem(mem, ring[k], n))
  {
    forall a, u | a in live && Covers(mem, a, u) ensures u != ring[k] && u != TailOf(mem, ring[k], n) {
      OutsideRing(base, ring, live, mem, owned, a, u, k);
    }
  }

  lemma AboveHeap(base: nat, ring: seq<nat>, live: set<nat>, mem: Memory, owned: set<nat>, p: nat, h: Header)
    requires HeapBut(base, ring, live, mem, owned, {}) && forall u :: u in owned ==> u < p
    ensures LiveKept(live, mem, mem[p := h])
  {
    forall a, u | a in live && Covers(mem, a, u) ensures u != p {
      assert a in FreeBlocks(ring) + live;
      assert Covered(FreeBlocks(ring) + live, mem, u);
    }
  }

  // ---- How far the search in malloc has come ------------------------------------------------------

  /** The blocks from behind freep (index f) up to q, q excluded, are too small. */
  ghost predicate Passed(ring: seq<nat>, mem: Memory, n: nat, q: nat, f: nat) {
    && q < |ring| && f < |ring|
    && forall i: nat :: i < |ring| && Dist(|ring|, q, i) > Dist(|ring|, q, f) ==>
         ring[i] in mem && mem[ring[i]].size < n
  }

  lemma PassedNone(ring: seq<nat>, mem: Memory, n: nat, f: nat)
    requires f < |ring|
    ensures Passed(ring, mem, n, Succ(|ring|, f), f)
  {
  }

  lemma PassedNext(ring: seq<nat>, mem: Memory, n: nat, q: nat, f: nat)
    requires Passed(ring, mem, n, q, f) && q != f && ring[q] in mem && mem[ring[q]].size < n
    ensures Passed(ring, mem, n, Succ(|ring|, q), f)
  {
  }

  lemma PassedAll(ring: seq<nat>, mem: Memory, n: nat, f: nat)
    requires Passed(ring, mem, n, f, f) && ring[f] in mem && mem[ring[f]].size < n
    ensures !HasBlock(ring, mem, n)
  {
    forall i: nat | i < |ring| ensures mem[ring[i]].size < n {
      assert i != f ==> Dist(|ring|, f, i) > Dist(|ring|, f, f);
    }
  }

  /** One step along the ring is one step nearer to f, and to t if t is no farther. */
  lemma Nearer(n: nat, q: nat, f: nat, t: nat)
    requires q < n && f < n && t < n
    ensures q != f ==> Dist(n, Succ(n, q), f) == Dist(n, q, f) - 1
    ensures q != t ==> Dist(n, Succ(n, q), t) == Dist(n, q, t) - 1
    ensures Dist(n, Succ(n, f), t) <= Dist(n, Succ(n, f), f)
    ensures Dist(n, q, q) == 0 && (Dist(n, q, t) == 0 <==> t == q) && (Dist(n, q, f) == 0 <==> f == q)
  {
  }

  lemma NothingWritten(ring: seq<nat>, live: set<nat>, mem: Memory, base: nat, n: nat)
    ensures LiveKept(live, mem, mem) && (HasBlock(ring, mem, n) ==> ring != [])
    ensures live == {} ==> LiveKept(live, mem, mem[base := Header(base, 0)])
  {
  }

  lemma Grown(base: nat, ring: seq<nat>, live: set<nat>, mem: Memory, owned: set<nat>, p: nat, n: nat, h: Header)
    requires HeapBut(base, ring, live, mem, owned, {}) && base < p && n >= 1 && h.size == n
    requires forall u :: u in owned ==> u < p
    ensures p !in live && HeapBut(base, ring, live + {p}, mem[p := h], owned + Units(p, n), {})
  {
    GrowKeeps(base, ring, live, mem, owned, p, n, h);
  }

  lemma Roomier(ring: seq<nat>, mem: Memory, n: nat, m: nat)
    requires HasBlock(ring, mem, n) && m <= n
    ensures HasBlock(ring, mem, m)
  {
  }

  lemma FreshHeap(base: nat, mem: Memory)
    requires base > 0 && base in mem && mem[base] == Header(base, 0)
    ensures HeapBut(base, [base], {}, mem, {}, {})
  {
  }

  lemma RingAt(base: nat, ring: seq<nat>, live: set<nat>, mem: Memory, owned: set<nat>, q: nat)
    requires HeapBut(base, ring, live, mem, owned, {}) && q < |ring|
    ensures ring[q] in mem && mem[ring[q]].ptr == ring[Succ(|ring|, q)] && ring[Succ(|ring|, q)] in mem
    ensures forall a :: a in live ==> a in mem
  {
  }

  lemma DistinctIndices(base: nat, ring: seq<nat>, live: set<nat>, mem: Memory, owned: set<nat>, i: nat, j: nat)
    requires HeapBut(base, ring, live, mem, owned, {}) && i < |ring| && j < |ring| && ring[i] == ring[j]
    ensures i == j
  {
  }

  lemma BigBlock(ring: seq<nat>, mem: Memory, n: nat) returns (t: nat)
    requires HasBlock(ring, mem, n)
    ensures t < |ring| && ring[t] in mem && mem[ring[t]].size >= n
  {
    t :| 1 <= t < |ring| && ring[t] in mem && mem[ring[t]].size >= n;
  }

  /** A block with units in it is not base, so its predecessor is not the last of the ring. */
  lemma TakeIndex(base: nat, ring: seq<nat>, live: set<nat>, mem: Memory, owned: set<nat>, k: nat)
    requires HeapBut(base, ring, live, mem, owned, {}) && k < |ring|
    requires ring[Succ(|ring|, k)] in mem && mem[ring[Succ(|ring|, k)]].size >= 1
    ensures k + 1 < |ring| && ring[k] != ring[k + 1] && ring[k] !in live && ring[k + 1] !in live
  {
  }

  lemma TookWhole(base: nat, ring: seq<nat>, live: set<nat>, mem: Memory, owned: set<nat>, k: nat)
    requires HeapBut(base, ring, live, mem, owned, {}) && k + 1 < |ring|
    ensures ring[k] in mem && ring[k + 1] in mem
    ensures HeapBut(base, MergeRing(ring, k), live + {ring[k + 1]}, UnlinkMem(mem, ring[k], ring[k + 1]), owned, {})
    ensures ring[k] in MergeRing(ring, k)
  {
    UnlinkKeeps(base, ring, live, mem, owned, k);
    assert MergeRing(ring, k)[k] == ring[k];
  }

  lemma TookTail(base: nat, ring: seq<nat>, live: set<nat>, mem: Memory, owned: set<nat>, k: nat, n: nat)
    requires HeapBut(base, ring, live, mem, owned, {}) && 1 <= k < |ring|
    requires ring[k] in mem && 1 <= n < mem[ring[k]].size
    ensures TailOf(mem, ring[k], n) !in live
    ensures HeapBut(base, ring, live + {TailOf(mem, ring[k], n)}, SplitMem(mem, ring[k], n), owned, {})
  {
    SplitKeeps(base, ring, live, mem, owned, k, n);
    assert ring[k] in FreeBlocks(ring);
    SplitPartition(base, FreeBlocks(ring) + live, mem, owned, ring[k], n);
  }

  lemma FreepPositive(base: nat, ring: seq<nat>, mem: Memory, freep: nat)
    requires Ring(base, ring, mem) && base > 0 && freep in ring
    ensures freep > 0
  {
  }
}
