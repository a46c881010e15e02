/** What one bmap call does to an inode's slots and to the blocks of the disk. */
module FsMap {
  import opened Params
  import opened FsSpec

  /** Slot s went from empty to the fresh block x; only x and the indirect block changed contents. */
  ghost predicate Grew(a: Addrs, d: Disk, a': Addrs, d': Disk, s: nat, x: nat, others: set<nat>)
    requires s < NSLOTS
  {
    && |d'| == |d| && 0 != x < |d| && x !in Own(a, d) && x !in others
    && Filled(a, d, a', d', s, x) && d'[x] == Zero()
    && (forall c: nat :: c < |d| && c != x && c != a'[NDIRECT] ==> d'[c] == d[c])
  }

  /** bmap reached block b for file block bn, having allocated `got`. */
  ghost predicate Mapped(a: Addrs, d: Disk, a': Addrs, d': Disk, bn: nat, b: nat, got: seq<nat>, others: set<nat>)
    requires bn < MAXFILE
  {
    && |d'| == |d| && 0 != b < |d|
    && Slot(a', d', DataSlot(bn)) == b
    && (forall t: nat :: t < NSLOTS && t != DataSlot(bn) && t != NDIRECT ==> Slot(a', d', t) == Slot(a, d, t))
    && (forall x :: x in got ==> x !in others && x !in Own(a, d))
    && (forall c: nat :: c < |d| && c !in got && c != a'[NDIRECT] ==> d'[c] == d[c])
    && (a[NDIRECT] != 0 || bn < NDIRECT ==> a'[NDIRECT] == a[NDIRECT])
    && (Slot(a, d, DataSlot(bn)) != 0 ==> a' == a && d' == d && got == [] && b == Slot(a, d, DataSlot(bn)))
    && (Slot(a, d, DataSlot(bn)) == 0 ==>
          && d'[b] == Zero()
          && got == if bn >= NDIRECT && a[NDIRECT] == 0 then [a'[NDIRECT], b] else [b])
  }

  lemma MappedAlready(a: Addrs, d: Disk, bn: nat, others: set<nat>)
    requires bn < MAXFILE && WellMapped(a, d) && Slot(a, d, DataSlot(bn)) != 0
    ensures Mapped(a, d, a, d, bn, Slot(a, d, DataSlot(bn)), [], others)
  {
  }

  lemma MappedFresh(a: Addrs, d: Disk, a': Addrs, d': Disk, bn: nat, x: nat, others: set<nat>)
    requires bn < MAXFILE && Grew(a, d, a', d', DataSlot(bn), x, others) && (bn >= NDIRECT ==> a[NDIRECT] != 0)
    ensures Mapped(a, d, a', d', bn, x, [x], others)
  {
    assert Slot(a', d', NDIRECT) == Slot(a, d, NDIRECT);
  }

  /** The indirect block first, then its first entry. */
  lemma MappedTwice(a: Addrs, d: Disk, a1: Addrs, d1: Disk, d2: Disk, bn: nat, x: nat, y: nat, others: set<nat>)
    requires NDIRECT <= bn < MAXFILE && a[NDIRECT] == 0 && a1 == a[NDIRECT := x]
    requires Grew(a, d, a1, d1, NDIRECT, x, others) && Mapped(a1, d1, a1, d2, bn, y, [y], others)
    requires Slot(a1, d1, DataSlot(bn)) == 0 && Own(a, d) <= Own(a1, d1)
    ensures Mapped(a, d, a1, d2, bn, y, [x, y], others)
  {
  }

  lemma IndirectOwned(a: Addrs, d: Disk)
    requires a[NDIRECT] != 0
    ensures a[NDIRECT] in Own(a, d)
  {
    assert Slot(a, d, NDIRECT) in Own(a, d);
  }

  lemma IndirectInRange(a: Addrs, d: Disk)
    requires WellMapped(a, d)
    ensures a[NDIRECT] < |d|
  {
    assert Slot(a, d, NDIRECT) < |d|;
  }

  /** A freshly allocated indirect block has no entries. */
  lemma EmptyIndirect(a: Addrs, d: Disk, a': Addrs, d': Disk, n: nat, x: nat, others: set<nat>)
    requires n < NINDIRECT && a[NDIRECT] == 0 && Grew(a, d, a', d', NDIRECT, x, others)
    ensures Slot(a', d', NDIRECT + 1 + n) == 0
  {
  }

  lemma GrowSlot(a: Addrs, d: Disk, s: nat, x: nat, others: set<nat>)
    requires s <= NDIRECT && a[s] == 0 && 0 != x < |d| && x !in Own(a, d) && x !in others && WellMapped(a, d)
    ensures Grew(a, d, a[s := x], d[x := Zero()], s, x, others)
    ensures WellMapped(a[s := x], d[x := Zero()]) && Own(a[s := x], d[x := Zero()]) == Own(a, d) + {x}
  {
    if s < NDIRECT { FillDirect(a, d, s, x); } else { FillIndirect(a, d, x); }
    FilledOwn(a, d, a[s := x], d[x := Zero()], s, x);
  }

  lemma GrowEntry(a: Addrs, d: Disk, n: nat, y: nat, others: set<nat>)
    requires n < NINDIRECT && 0 != a[NDIRECT] < |d| && Slot(a, d, NDIRECT + 1 + n) == 0
    requires 0 != y < |d| < TWO32 && y !in Own(a, d) && y !in others && WellMapped(a, d)
    ensures var ind := a[NDIRECT];
            var d' := d[y := Zero()][ind := SetWord(d[ind], n, y)];
            && d[y := Zero()][ind] == d[ind]
            && Grew(a, d, a, d', NDIRECT + 1 + n, y, others)
            && WellMapped(a, d') && Own(a, d') == Own(a, d) + {y}
  {
    IndirectOwned(a, d);
    FillEntry(a, d, n, y);
    var ind := a[NDIRECT];
    FilledOwn(a, d, a, d[y := Zero()][ind := SetWord(d[ind], n, y)], NDIRECT + 1 + n, y);
  }

  /** Nothing changed in the blocks that are somebody else's. */
  ghost predicate SameOn(others: set<nat>, d: Disk, d': Disk) {
    |d'| == |d| && forall c: nat :: c in others && 0 != c < |d| ==> d'[c] == d[c]
  }

  lemma SameOnSelf(others: set<nat>, d: Disk)
    ensures SameOn(others, d, d)
  {
  }

  lemma SameOnTwice(others: set<nat>, d0: Disk, d1: Disk, d2: Disk)
    requires SameOn(others, d0, d1) && SameOn(others, d1, d2)
    ensures SameOn(others, d0, d2)
  {
  }

  lemma MappedElsewhere(a: Addrs, d: Disk, a': Addrs, d': Disk, bn: nat, b: nat, got: seq<nat>, others: set<nat>)
    requires bn < MAXFILE && Mapped(a, d, a', d', bn, b, got, others) && others !! Own(a', d')
    ensures SameOn(others, d, d') && b !in others
  {
    assert b in Own(a', d');
    if a'[NDIRECT] != 0 { assert Slot(a', d', NDIRECT) in Own(a', d'); }
  }

  // ---- Emptying an inode -----------------------------------------------------------------------

  lemma DropSlot(a: Addrs, d: Disk, i: nat)
    requires WellMapped(a, d) && i < NDIRECT && a[i] != 0
    ensures a[i] < |d| && a[i] in Own(a, d)
    ensures WellMapped(a[i := 0], d) && Own(a[i := 0], d) == Own(a, d) - {a[i]}
  {
    var a': Addrs := a[i := 0];
    assert Slot(a, d, i) == a[i];
    forall s: nat | s < NSLOTS ensures Slot(a', d, s) == if s == i then 0 else Slot(a, d, s) {
    }
    forall x | x in Own(a, d) - {a[i]} ensures x in Own(a', d) {
      var s: nat :| s < NSLOTS && Slot(a, d, s) != 0 && Slot(a, d, s) == x;
      assert Slot(a', d, s) == x;
    }
    forall x | x in Own(a', d) ensures x in Own(a, d) - {a[i]} {
      var s: nat :| s < NSLOTS && Slot(a', d, s) != 0 && Slot(a', d, s) == x;
      assert Slot(a, d, s) == x && s != i;
    }
  }

  lemma NothingOwned(a: Addrs, d: Disk)
    requires forall i :: 0 <= i <= NDIRECT ==> a[i] == 0
    ensures |d| > 0 ==> WellMapped(a, d)
    ensures Own(a, d) == {}
  {
  }

  /** Word k of the indirect block, as a slot. */
  function Entry(a: Addrs, d: Disk, k: nat): nat
    requires k < NINDIRECT
  {
    Slot(a, d, NDIRECT + 1 + k)
  }

  /** The blocks named by the first j words of the indirect block. */
  ghost function Words(a: Addrs, d: Disk, j: nat): set<nat>
    requires j <= NINDIRECT
  {
    set k: nat | 0 <= k < j && Entry(a, d, k) != 0 :: Entry(a, d, k)
  }

  lemma WordsBefore(a: Addrs, d: Disk, j: nat)
    requires j == 0
    ensures Words(a, d, j) == {}
  {
  }

  /** Word j is owned, not freed yet, and freeing it accounts for exactly one more word. */
  lemma WordsStep(a: Addrs, d: Disk, j: nat)
    requires WellMapped(a, d) && 0 != a[NDIRECT] < |d| && j < NINDIRECT
    ensures var w := Word(d[a[NDIRECT]], j);
            && w < |d|
            && (w == 0 ==> Words(a, d, j + 1) == Words(a, d, j))
            && (w != 0 ==> w in Own(a, d) && w !in Words(a, d, j) && Words(a, d, j + 1) == Words(a, d, j) + {w})
  {
    var w := Word(d[a[NDIRECT]], j);
    assert Entry(a, d, j) == w;
    forall k: nat | k < j && Entry(a, d, k) != 0 ensures Entry(a, d, k) != w {
    }
    forall x | x in Words(a, d, j + 1) ensures x == w || x in Words(a, d, j) {
    }
  }

  lemma AllWords(a: Addrs, d: Disk)
    requires WellMapped(a, d) && 0 != a[NDIRECT] && forall i :: 0 <= i < NDIRECT ==> a[i] == 0
    ensures Own(a, d) - Words(a, d, NINDIRECT) == {a[NDIRECT]}
  {
    assert Slot(a, d, NDIRECT) == a[NDIRECT] && a[NDIRECT] in Own(a, d);
    forall x | x in Own(a, d) && x != a[NDIRECT] ensures x in Words(a, d, NINDIRECT) {
      var s: nat :| s < NSLOTS && Slot(a, d, s) != 0 && Slot(a, d, s) == x;
      assert s > NDIRECT && Entry(a, d, s - NDIRECT - 1) == x;
    }
    forall x | x in Words(a, d, NINDIRECT) ensures x != a[NDIRECT] {
      var k: nat :| k < NINDIRECT && Entry(a, d, k) != 0 && Entry(a, d, k) == x;
    }
  }
}
