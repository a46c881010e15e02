/**
  The user heap of umalloc.c as values.  Memory is counted in header-sized units; an
  address names a unit.  `ring` lists the circular free list from the static `base`
  header upwards, `blocks` holds the addresses of all heap blocks, free and live.
 */
module HeapSpec {

  datatype Header = Header(ptr: nat, size: nat)
  type Memory = map<nat, Header>

  function Next(ring: seq<nat>, i: nat): nat
    requires i < |ring|
  {
    if i + 1 < |ring| then ring[i + 1] else ring[0]
  }

  /** The free list: circular, starting at base, addresses ascending with one wrap. */
  ghost predicate Ring(base: nat, ring: seq<nat>, mem: Memory) {
    && ring != [] && ring[0] == base && base in mem && mem[base].size == 0
    && Sorted(ring)
    && (forall i :: 0 <= i < |ring| ==> ring[i] in mem && mem[ring[i]].ptr == Next(ring, i))
  }

  ghost predicate Sorted(ring: seq<nat>) {
    forall i, j :: 0 <= i < j < |ring| ==> ring[i] < ring[j]
  }

  /** No two free blocks touch, except possibly the pair at `k`, `k + 1`. */
  ghost predicate Gaps(ring: seq<nat>, mem: Memory, open: set<nat>) {
    forall i :: 1 <= i && i + 1 < |ring| && i !in open && ring[i] in mem ==>
      ring[i] + mem[ring[i]].size < ring[i + 1]
  }

  ghost predicate Coalesced(ring: seq<nat>, mem: Memory) {
    Gaps(ring, mem, {})
  }

  ghost predicate Covers(mem: Memory, a: nat, u: nat) {
    a in mem && a <= u < a + mem[a].size
  }

  ghost predicate Covered(blocks: set<nat>, mem: Memory, u: nat) {
    exists a :: a in blocks && Covers(mem, a, u)
  }

  /** The blocks are pairwise disjoint and cover exactly the units obtained from sbrk. */
  ghost predicate Partition(base: nat, blocks: set<nat>, mem: Memory, owned: set<nat>) {
    && (forall a :: a in blocks ==> a in mem && base < a && mem[a].size >= 1)
    && (forall a, b :: a in blocks && b in blocks && a < b ==> a + mem[a].size <= b)
    && (forall u :: u in owned <==> Covered(blocks, mem, u))
  }

  ghost function FreeBlocks(ring: seq<nat>): set<nat> {
    set i | 1 <= i < |ring| :: ring[i]
  }

  /** All of the allocator's bookkeeping. */
  ghost predicate Heap(base: nat, ring: seq<nat>, live: set<nat>, mem: Memory, owned: set<nat>) {
    && Ring(base, ring, mem)
    && FreeBlocks(ring) !! live
    && Partition(base, FreeBlocks(ring) + live, mem, owned)
  }

  // ---- Inserting a block, and merging two neighbours ----------------------------------

  /** Where `bp` belongs: after ring[j], before its successor unless ring[j] is the last. */
  ghost predicate Belongs(ring: seq<nat>, j: nat, bp: nat) {
    j < |ring| && ring[j] < bp && (j + 1 < |ring| ==> bp < ring[j + 1])
  }

  function InsertMem(mem: Memory, p: nat, bp: nat): Memory
    requires p in mem && bp in mem
  {
    mem[bp := mem[bp].(ptr := mem[p].ptr)][p := mem[p].(ptr := bp)]
  }

  function MergeMem(mem: Memory, a: nat, b: nat): Memory
    requires a in mem && b in mem
  {
    mem[a := Header(mem[b].ptr, mem[a].size + mem[b].size)]
  }

  function InsertRing(ring: seq<nat>, j: nat, bp: nat): seq<nat>
    requires j < |ring|
  {
    ring[..j + 1] + [bp] + ring[j + 1..]
  }

  function MergeRing(ring: seq<nat>, i: nat): seq<nat>
    requires i + 1 < |ring|
  {
    ring[..i + 1] + ring[i + 2..]
  }

  lemma InsertAt(ring: seq<nat>, j: nat, bp: nat, k: nat)
    requires j < |ring| && k <= |ring|
    ensures |InsertRing(ring, j, bp)| == |ring| + 1
    ensures InsertRing(ring, j, bp)[k] == if k <= j then ring[k] else if k == j + 1 then bp else ring[k - 1]
  {
  }

  lemma MergeAt(ring: seq<nat>, i: nat, k: nat)
    requires i + 1 < |ring| && k < |ring| - 1
    ensures |MergeRing(ring, i)| == |ring| - 1
    ensures MergeRing(ring, i)[k] == if k <= i then ring[k] else ring[k + 1]
  {
  }

  /** The successor in the merged ring, the wrap to its start included. */
  lemma MergeNext(ring: seq<nat>, i: nat, k: nat)
    requires i + 1 < |ring| && k < |ring| - 1
    ensures |MergeRing(ring, i)| == |ring| - 1
    ensures Next(MergeRing(ring, i), k) == Next(ring, if k < i then k else k + 1)
  {
    MergeAt(ring, i, k);
    MergeAt(ring, i, 0);
    if k + 1 < |ring| - 1 { MergeAt(ring, i, k + 1); }
    hide MergeRing;
  }

  lemma InsertNext(ring: seq<nat>, j: nat, bp: nat, k: nat)
    requires j < |ring| && k <= |ring|
    ensures |InsertRing(ring, j, bp)| == |ring| + 1
    ensures Next(InsertRing(ring, j, bp), k)
         == if k < j then Next(ring, k) else if k == j then bp else Next(ring, k - 1)
  {
    InsertAt(ring, j, bp, k);
    InsertAt(ring, j, bp, 0);
    if k < |ring| { InsertAt(ring, j, bp, k + 1); }
    hide InsertRing;
  }

  lemma InsertSorted(ring: seq<nat>, j: nat, bp: nat)
    requires Sorted(ring) && Belongs(ring, j, bp)
    ensures Sorted(InsertRing(ring, j, bp))
  {
    var r := InsertRing(ring, j, bp);
    forall x, y | 0 <= x < y < |r| ensures r[x] < r[y] {
      assert r[x] == if x <= j then ring[x] else if x == j + 1 then bp else ring[x - 1];
      assert r[y] == if y <= j then ring[y] else if y == j + 1 then bp else ring[y - 1];
    }
  }

  lemma NewToRing(ring: seq<nat>, j: nat, bp: nat)
    requires Sorted(ring) && Belongs(ring, j, bp)
    ensures bp !in ring && forall k :: 0 <= k < |ring| && k != j ==> ring[k] != ring[j]
  {
    forall k | 0 <= k < |ring| ensures ring[k] != bp && (k != j ==> ring[k] != ring[j]) {
    }
  }

  lemma InsertLink(ring: seq<nat>, mem: Memory, j: nat, bp: nat, i: nat)
    requires Sorted(ring) && Belongs(ring, j, bp) && bp in mem && i <= |ring|
    requires forall k :: 0 <= k < |ring| ==> ring[k] in mem && mem[ring[k]].ptr == Next(ring, k)
    ensures var r, m := InsertRing(ring, j, bp), InsertMem(mem, ring[j], bp);
            r[i] in m && m[r[i]].ptr == Next(r, i)
  {
    hide InsertRing, Next;
    NewToRing(ring, j, bp);
    InsertAt(ring, j, bp, i);
    InsertNext(ring, j, bp, i);
    hide Sorted;
  }

  lemma InsertKeepsRing(base: nat, ring: seq<nat>, mem: Memory, j: nat, bp: nat)
    requires Ring(base, ring, mem) && Belongs(ring, j, bp) && bp in mem
    ensures Ring(base, InsertRing(ring, j, bp), InsertMem(mem, ring[j], bp))
  {
    hide InsertRing, Next, Sorted;
    var r, m := InsertRing(ring, j, bp), InsertMem(mem, ring[j], bp);
    InsertSorted(ring, j, bp);
    NewToRing(ring, j, bp);
    InsertAt(ring, j, bp, 0);
    forall i | 0 <= i < |r| ensures r[i] in m && m[r[i]].ptr == Next(r, i) {
      InsertLink(ring, mem, j, bp, i);
    }
    assert base != bp && m[base].size == mem[base].size;
  }

  lemma InsertFreeBlocks(ring: seq<nat>, j: nat, bp: nat)
    requires j < |ring|
    ensures FreeBlocks(InsertRing(ring, j, bp)) == FreeBlocks(ring) + {bp}
  {
    var r := InsertRing(ring, j, bp);
    assert r[j + 1] == bp;
    forall a | a in FreeBlocks(ring) ensures a in FreeBlocks(r) {
      var i :| 1 <= i < |ring| && ring[i] == a;
      assert r[if i <= j then i else i + 1] == a;
    }
  }

  lemma InsertKeeps(base: nat, ring: seq<nat>, live: set<nat>, mem: Memory, owned: set<nat>, j: nat, bp: nat)
    requires Heap(base, ring, live, mem, owned) && Belongs(ring, j, bp) && bp in live && bp in mem
    ensures Heap(base, InsertRing(ring, j, bp), live - {bp}, InsertMem(mem, ring[j], bp), owned)
  {
    InsertKeepsRing(base, ring, mem, j, bp);
    InsertFreeBlocks(ring, j, bp);
    hide Ring, InsertRing, FreeBlocks, Belongs, Sorted;
    var m := InsertMem(mem, ring[j], bp);
    assert FreeBlocks(ring) + {bp} + (live - {bp}) == FreeBlocks(ring) + live;
    SameSizes(base, FreeBlocks(ring) + live, mem, m, owned);
  }

  lemma InsertGaps(base: nat, ring: seq<nat>, mem: Memory, j: nat, bp: nat)
    requires Ring(base, ring, mem) && Belongs(ring, j, bp) && bp in mem && Coalesced(ring, mem)
    ensures Gaps(InsertRing(ring, j, bp), InsertMem(mem, ring[j], bp), {j, j + 1})
  {
    hide InsertRing, Next, Sorted;
    var m, r := InsertMem(mem, ring[j], bp), InsertRing(ring, j, bp);
    InsertAt(ring, j, bp, 0);
    forall i | 1 <= i && i + 1 < |r| && i !in {j, j + 1} ensures r[i] in m && r[i] + m[r[i]].size < r[i + 1] {
      InsertAt(ring, j, bp, i);
      InsertAt(ring, j, bp, i + 1);
    }
  }

  /** Rewriting pointers leaves the partition alone. */
  lemma SameSizes(base: nat, blocks: set<nat>, mem: Memory, mem': Memory, owned: set<nat>)
    requires Partition(base, blocks, mem, owned)
    requires forall a :: a in blocks ==> a in mem' && a in mem && mem'[a].size == mem[a].size
    ensures Partition(base, blocks, mem', owned)
  {
    forall u | u in owned ensures Covered(blocks, mem', u) {
      var a :| a in blocks && Covers(mem, a, u);
      assert Covers(mem', a, u);
    }
    forall u, a | a in blocks && Covers(mem', a, u) ensures u in owned {
      assert Covers(mem, a, u);
    }
  }

  lemma MergeSorted(ring: seq<nat>, i: nat)
    requires Sorted(ring) && i + 1 < |ring|
    ensures Sorted(MergeRing(ring, i))
  {
    var r := MergeRing(ring, i);
    forall x, y | 0 <= x < y < |r| ensures r[x] < r[y] {
      assert r[x] == if x <= i then ring[x] else ring[x + 1];
      assert r[y] == if y <= i then ring[y] else ring[y + 1];
    }
  }

  lemma MergeKeepsRing(base: nat, ring: seq<nat>, mem: Memory, i: nat)
    requires Ring(base, ring, mem) && 1 <= i && i + 1 < |ring|
    ensures Ring(base, MergeRing(ring, i), MergeMem(mem, ring[i], ring[i + 1]))
  {
    hide MergeRing, Next;
    var r, m := MergeRing(ring, i), MergeMem(mem, ring[i], ring[i + 1]);
    MergeSorted(ring, i);
    MergeAt(ring, i, 0);
    forall k: nat | k < |r| ensures r[k] in m && m[r[k]].ptr == Next(r, k) {
      MergeAt(ring, i, k);
      MergeNext(ring, i, k);
    }
  }

  lemma MergeFreeBlocks(ring: seq<nat>, i: nat)
    requires 1 <= i && i + 1 < |ring|
    requires Sorted(ring)
    ensures FreeBlocks(MergeRing(ring, i)) == FreeBlocks(ring) - {ring[i + 1]}
  {
    var r := MergeRing(ring, i);
    forall a | a in FreeBlocks(ring) - {ring[i + 1]} ensures a in FreeBlocks(r) {
      var k :| 1 <= k < |ring| && ring[k] == a;
      assert r[if k <= i then k else k - 1] == a;
    }
    forall a | a in FreeBlocks(r) ensures a in FreeBlocks(ring) - {ring[i + 1]} {
      var k :| 1 <= k < |r| && r[k] == a;
      assert ring[if k <= i then k else k + 1] == a;
    }
  }

  lemma MergePartition(base: nat, blocks: set<nat>, mem: Memory, owned: set<nat>, a: nat, b: nat)
    requires Partition(base, blocks, mem, owned)
    requires a in blocks && b in blocks && a < b && a + mem[a].size == b
    ensures Partition(base, blocks - {b}, MergeMem(mem, a, b), owned)
  {
    var m, bs := MergeMem(mem, a, b), blocks - {b};
    forall u | u in owned ensures Covered(bs, m, u) {
      var c :| c in blocks && Covers(mem, c, u);
      assert Covers(m, if c == b then a else c, u);
    }
    forall u, c | c in bs && Covers(m, c, u) ensures u in owned {
      assert Covers(mem, c, u) || Covers(mem, b, u);
    }
  }

  lemma MergeKeeps(base: nat, ring: seq<nat>, live: set<nat>, mem: Memory, owned: set<nat>, i: nat)
    requires Heap(base, ring, live, mem, owned) && 1 <= i && i + 1 < |ring|
    requires ring[i] + mem[ring[i]].size == ring[i + 1]
    ensures Heap(base, MergeRing(ring, i), live, MergeMem(mem, ring[i], ring[i + 1]), owned)
  {
    MergeKeepsRing(base, ring, mem, i);
    MergeFreeBlocks(ring, i);
    var a, b := ring[i], ring[i + 1];
    assert a in FreeBlocks(ring) && b in FreeBlocks(ring);
    MergePartition(base, FreeBlocks(ring) + live, mem, owned, a, b);
    assert FreeBlocks(ring) + live - {b} == (FreeBlocks(ring) - {b}) + live;
  }

  lemma MergeGaps(base: nat, ring: seq<nat>, mem: Memory, i: nat, open: set<nat>, open': set<nat>)
    requires Ring(base, ring, mem) && 1 <= i && i + 1 < |ring| && Gaps(ring, mem, open)
    requires ring[i] + mem[ring[i]].size == ring[i + 1]
    requires forall k :: k in open && k < i ==> k in open'
    requires i + 1 in open ==> i in open'
    requires forall k :: k in open && k > i + 1 ==> k - 1 in open'
    ensures Gaps(MergeRing(ring, i), MergeMem(mem, ring[i], ring[i + 1]), open')
  {
    hide MergeRing, Next;
    var r, m := MergeRing(ring, i), MergeMem(mem, ring[i], ring[i + 1]);
    MergeAt(ring, i, 0);
    forall k: nat | 1 <= k && k + 1 < |r| && k !in open' ensures r[k] in m && r[k] + m[r[k]].size < r[k + 1] {
      MergeAt(ring, i, k);
      MergeAt(ring, i, k + 1);
      MergeGapAt(ring, mem, i, k, open, open');
    }
  }

  lemma MergeGapAt(ring: seq<nat>, mem: Memory, i: nat, k: nat, open: set<nat>, open': set<nat>)
    requires Sorted(ring) && (forall n :: 0 <= n < |ring| ==> ring[n] in mem) && Gaps(ring, mem, open)
    requires 1 <= i && i + 1 < |ring| && 1 <= k && k + 2 < |ring| && k !in open'
    requires ring[i] + mem[ring[i]].size == ring[i + 1]
    requires forall n :: n in open && n < i ==> n in open'
    requires i + 1 in open ==> i in open'
    requires forall n :: n in open && n > i + 1 ==> n - 1 in open'
    ensures var m, a := MergeMem(mem, ring[i], ring[i + 1]), ring[if k <= i then k else k + 1];
            a in m && a + m[a].size < ring[if k < i then k + 1 else k + 2]
  {
    assert k > i ==> k + 1 !in open && ring[k + 1] != ring[i];
    assert k < i ==> ring[k] != ring[i];
  }

  /** Two neighbours that were not merged do not touch. */
  lemma CloseGap(base: nat, ring: seq<nat>, live: set<nat>, mem: Memory, owned: set<nat>, k: nat, open: set<nat>)
    requires Heap(base, ring, live, mem, owned) && Gaps(ring, mem, open + {k})
    requires 1 <= k && k + 1 < |ring| ==> ring[k] + mem[ring[k]].size != ring[k + 1]
    ensures Gaps(ring, mem, open)
  {
    if 1 <= k && k + 1 < |ring| {
      assert ring[k] in FreeBlocks(ring) && ring[k + 1] in FreeBlocks(ring);
    }
  }

  // ---- Taking a block, or its tail ------------------------------------------------------

  function UnlinkMem(mem: Memory, prev: nat, p: nat): Memory
    requires prev in mem && p in mem
  {
    mem[prev := mem[prev].(ptr := mem[p].ptr)]
  }

  lemma UnlinkKeeps(base: nat, ring: seq<nat>, live: set<nat>, mem: Memory, owned: set<nat>, k: nat)
    requires Heap(base, ring, live, mem, owned) && Coalesced(ring, mem) && k + 1 < |ring|
    ensures var m := UnlinkMem(mem, ring[k], ring[k + 1]);
            && Heap(base, MergeRing(ring, k), live + {ring[k + 1]}, m, owned)
            && Coalesced(MergeRing(ring, k), m)
  {
    hide Sorted, MergeRing, Gaps, Covered;
    var p := ring[k + 1];
    var m := UnlinkMem(mem, ring[k], p);
    UnlinkRing(base, ring, mem, k);
    UnlinkFreeBlocks(ring, k);
    assert p in FreeBlocks(ring);
    assert FreeBlocks(ring) - {p} + (live + {p}) == FreeBlocks(ring) + live;
    SameSizes(base, FreeBlocks(ring) + live, mem, m, owned);
    UnlinkGaps(ring, mem, k);
  }

  lemma UnlinkRing(base: nat, ring: seq<nat>, mem: Memory, k: nat)
    requires Ring(base, ring, mem) && k + 1 < |ring|
    ensures Ring(base, MergeRing(ring, k), UnlinkMem(mem, ring[k], ring[k + 1]))
  {
    hide MergeRing, Next;
    var r, m := MergeRing(ring, k), UnlinkMem(mem, ring[k], ring[k + 1]);
    MergeSorted(ring, k);
    MergeAt(ring, k, 0);
    forall i: nat | i < |r| ensures r[i] in m && m[r[i]].ptr == Next(r, i) {
      MergeAt(ring, k, i);
      MergeNext(ring, k, i);
    }
  }

  lemma UnlinkFreeBlocks(ring: seq<nat>, k: nat)
    requires k + 1 < |ring| && Sorted(ring)
    ensures FreeBlocks(MergeRing(ring, k)) == FreeBlocks(ring) - {ring[k + 1]}
  {
    var r, p := MergeRing(ring, k), ring[k + 1];
    forall a | a in FreeBlocks(ring) - {p} ensures a in FreeBlocks(r) {
      var i :| 1 <= i < |ring| && ring[i] == a;
      assert r[if i <= k then i else i - 1] == a;
    }
    forall a | a in FreeBlocks(r) ensures a in FreeBlocks(ring) - {p} {
      var i :| 1 <= i < |r| && r[i] == a;
      assert ring[if i <= k then i else i + 1] == a;
    }
  }

  lemma UnlinkGaps(ring: seq<nat>, mem: Memory, k: nat)
    requires Sorted(ring) && k + 1 < |ring| && Coalesced(ring, mem)
    requires forall i :: 0 <= i < |ring| ==> ring[i] in mem
    ensures Coalesced(MergeRing(ring, k), UnlinkMem(mem, ring[k], ring[k + 1]))
  {
    var r, m := MergeRing(ring, k), UnlinkMem(mem, ring[k], ring[k + 1]);
    forall i | 1 <= i && i + 1 < |r| && r[i] in m ensures r[i] + m[r[i]].size < r[i + 1] {
      if i < k { assert r[i] == ring[i] && r[i + 1] == ring[i + 1]; }
      else if i == k { assert r[i] == ring[k] && r[i + 1] == ring[k + 2] && ring[k + 1] < ring[k + 2]; }
      else { assert r[i] == ring[i + 1] && r[i + 1] == ring[i + 2]; }
    }
  }

  function TailOf(mem: Memory, p: nat, n: nat): nat
    requires p in mem && n <= mem[p].size
  {
    p + (mem[p].size - n)
  }

  /** malloc keeps the front of the block on the free list and hands out its last `n` units. */
  function SplitMem(mem: Memory, p: nat, n: nat): Memory
    requires p in mem && n <= mem[p].size
  {
    var q := TailOf(mem, p, n);
    var garbage := if q in mem then mem[q].ptr else 0;
    mem[p := mem[p].(size := mem[p].size - n)][q := Header(garbage, n)]
  }

  lemma SplitPartition(base: nat, blocks: set<nat>, mem: Memory, owned: set<nat>, p: nat, n: nat)
    requires Partition(base, blocks, mem, owned) && p in blocks && 1 <= n < mem[p].size
    ensures TailOf(mem, p, n) !in blocks
    ensures Partition(base, blocks + {TailOf(mem, p, n)}, SplitMem(mem, p, n), owned)
  {
    var q, m := TailOf(mem, p, n), SplitMem(mem, p, n);
    forall u | u in owned ensures Covered(blocks + {q}, m, u) {
      var a :| a in blocks && Covers(mem, a, u);
      assert Covers(m, if a == p && u >= q then q else a, u);
    }
    forall u, a | a in blocks + {q} && Covers(m, a, u) ensures u in owned {
      assert Covers(mem, if a == q then p else a, u);
    }
  }

  lemma RingAvoids(base: nat, ring: seq<nat>, q: nat)
    requires q !in FreeBlocks(ring) && ring != [] && ring[0] == base && base != q
    ensures q !in ring
  {
    forall i | 0 <= i < |ring| ensures ring[i] != q {
      if i >= 1 { assert ring[i] in FreeBlocks(ring); }
    }
  }

  /** Free blocks may shrink in place: the list and its gaps stay. */
  lemma RingShrinks(base: nat, ring: seq<nat>, mem: Memory, m: Memory)
    requires Ring(base, ring, mem) && Coalesced(ring, mem)
    requires forall a :: a in ring && a in mem ==> a in m && m[a].ptr == mem[a].ptr && m[a].size <= mem[a].size
    ensures Ring(base, ring, m) && Coalesced(ring, m)
  {
    hide Sorted;
    forall i | 0 <= i < |ring|
      ensures ring[i] in m && m[ring[i]].ptr == mem[ring[i]].ptr && m[ring[i]].size <= mem[ring[i]].size
    {
      assert ring[i] in ring;
    }
  }

  lemma SplitFrame(ring: seq<nat>, mem: Memory, p: nat, n: nat)
    requires p in mem && n <= mem[p].size && TailOf(mem, p, n) !in ring
    ensures var m := SplitMem(mem, p, n);
            forall a :: a in ring && a in mem ==> a in m && m[a].ptr == mem[a].ptr && m[a].size <= mem[a].size
  {
  }

  lemma SplitKeeps(base: nat, ring: seq<nat>, live: set<nat>, mem: Memory, owned: set<nat>, k: nat, n: nat)
    requires Heap(base, ring, live, mem, owned) && Coalesced(ring, mem)
    requires 1 <= k < |ring| && 1 <= n < mem[ring[k]].size
    ensures var m := SplitMem(mem, ring[k], n);
            && Heap(base, ring, live + {TailOf(mem, ring[k], n)}, m, owned)
            && Coalesced(ring, m)
  {
    assert ring[0] == base && ring[k] in FreeBlocks(ring) && ring[k] > base;
    hide Ring, Gaps, Sorted, FreeBlocks;
    var p := ring[k];
    var q, m := TailOf(mem, p, n), SplitMem(mem, p, n);
    hide Partition;
    SplitPartition(base, FreeBlocks(ring) + live, mem, owned, p, n);
    assert FreeBlocks(ring) + live + {q} == FreeBlocks(ring) + (live + {q});
    RingAvoids(base, ring, q);
    hide SplitMem;
    SplitFrame(ring, mem, p, n);
    RingShrinks(base, ring, mem, m);
  }

  // ---- More memory from sbrk ---------------------------------------------------------------

  predicate Within(p: nat, n: nat, u: nat) {
    p <= u < p + n
  }

  ghost function Units(p: nat, n: nat): set<nat> {
    set u: nat | p <= u < p + n && Within(p, n, u)
  }

  /** A chunk above everything the heap owns joins as a live block (morecore then frees it). */
  lemma GrowKeeps(base: nat, ring: seq<nat>, live: set<nat>, mem: Memory, owned: set<nat>, p: nat, n: nat, h: Header)
    requires Heap(base, ring, live, mem, owned) && base < p && n >= 1 && h.size == n
    requires forall u :: u in owned ==> u < p
    ensures p !in FreeBlocks(ring) + live
    ensures Heap(base, ring, live + {p}, mem[p := h], owned + Units(p, n))
    ensures Coalesced(ring, mem) ==> Coalesced(ring, mem[p := h])
  {
    var blocks := FreeBlocks(ring) + live;
    GrowPartition(base, blocks, mem, owned, p, n, h);
    RingAvoids(base, ring, p);
    assert FreeBlocks(ring) + (live + {p}) == blocks + {p};
  }

  lemma GrowPartition(base: nat, blocks: set<nat>, mem: Memory, owned: set<nat>, p: nat, n: nat, h: Header)
    requires Partition(base, blocks, mem, owned) && base < p && n >= 1 && h.size == n
    requires forall u :: u in owned ==> u < p
    ensures p !in blocks && Partition(base, blocks + {p}, mem[p := h], owned + Units(p, n))
  {
    var m := mem[p := h];
    forall a | a in blocks ensures a + mem[a].size <= p {
      assert Covers(mem, a, a + mem[a].size - 1) && Covered(blocks, mem, a + mem[a].size - 1);
    }
    forall u | u in owned + Units(p, n) ensures Covered(blocks + {p}, m, u) {
      if u in owned {
        var a :| a in blocks && Covers(mem, a, u);
        assert a in blocks + {p} && Covers(m, a, u);
      } else {
        assert Within(p, n, u);
        assert p in blocks + {p} && Covers(m, p, u);
      }
    }
    forall u, a | a in blocks + {p} && Covers(m, a, u) ensures u in owned + Units(p, n) {
      if a != p { assert Covers(mem, a, u); } else { assert Within(p, n, u); assert u in Units(p, n); }
    }
  }
}
