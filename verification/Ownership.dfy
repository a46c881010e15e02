/**
  Who owns which block, over the whole inode table: a block is marked in the free map if
  and only if it is metadata or sits in exactly one slot of exactly one inode.
 */
module Ownership {
  import opened Params
  import opened FsSpec
  import opened FsMap

  ghost predicate Owned(inodes: seq<Addrs>, d: Disk, used: set<nat>, meta: set<nat>) {
    && 0 in meta
    && (forall i :: 0 <= i < |inodes| ==> WellMapped(inodes[i], d) && Own(inodes[i], d) !! meta)
    && (forall i, j :: 0 <= i < j < |inodes| ==> Own(inodes[i], d) !! Own(inodes[j], d))
    && (forall b :: b in used <==> b in meta || exists i :: 0 <= i < |inodes| && b in Own(inodes[i], d))
  }

  /** The blocks in use that are not inode k's. */
  ghost function Others(inodes: seq<Addrs>, d: Disk, used: set<nat>, k: nat): set<nat>
    requires k < |inodes|
  {
    used - Own(inodes[k], d)
  }

  /** Exactly one slot of exactly one inode holds a block that is in use and not metadata. */
  lemma OwnedOnce(inodes: seq<Addrs>, d: Disk, used: set<nat>, meta: set<nat>, b: nat)
    requires Owned(inodes, d, used, meta) && b in used && b !in meta
    ensures exists i, s: nat :: 0 <= i < |inodes| && s < NSLOTS && Slot(inodes[i], d, s) == b
    ensures forall i, s: nat, j, t: nat ::
              (&& 0 <= i < |inodes| && s < NSLOTS && 0 <= j < |inodes| && t < NSLOTS
               && Slot(inodes[i], d, s) == b && Slot(inodes[j], d, t) == b)
              ==> i == j && s == t
  {
    var i :| 0 <= i < |inodes| && b in Own(inodes[i], d);
    var s: nat :| s < NSLOTS && Slot(inodes[i], d, s) == b;
    forall i, s: nat, j, t: nat |
      0 <= i < |inodes| && s < NSLOTS && 0 <= j < |inodes| && t < NSLOTS
      && Slot(inodes[i], d, s) == b && Slot(inodes[j], d, t) == b
      ensures i == j && s == t
    {
      assert b in Own(inodes[i], d) && b in Own(inodes[j], d);
      assert i == j;
      assert s < t || t < s || s == t;
    }
  }

  /** Before an operation on inode k: its blocks and everybody else's, with nothing in common. */
  lemma SplitOff(inodes: seq<Addrs>, d: Disk, used: set<nat>, meta: set<nat>, k: nat)
    requires Owned(inodes, d, used, meta) && k < |inodes|
    ensures var others := Others(inodes, d, used, k);
            && others !! Own(inodes[k], d) && 0 in others && used == others + Own(inodes[k], d)
            && meta <= others
            && forall i :: 0 <= i < |inodes| && i != k ==> Own(inodes[i], d) <= others
  {
  }

  /** An inode whose blocks are somebody else's business does not notice. */
  lemma Unaffected(a: Addrs, d: Disk, d': Disk, others: set<nat>)
    requires WellMapped(a, d) && Own(a, d) <= others && SameOn(others, d, d')
    ensures WellMapped(a, d') && Own(a, d') == Own(a, d)
  {
    assert Slot(a, d, NDIRECT) == a[NDIRECT];
    if a[NDIRECT] != 0 { assert Slot(a, d, NDIRECT) in Own(a, d); }
    forall s: nat | s < NSLOTS ensures Slot(a, d', s) == Slot(a, d, s) {
    }
  }

  /** ... and if it has no holes its contents stay. */
  lemma UnaffectedContents(a: Addrs, d: Disk, d': Disk, others: set<nat>, size: nat)
    requires WellMapped(a, d) && Own(a, d) <= others && SameOn(others, d, d') && NoHoles(a, d, size)
    ensures NoHoles(a, d', size) && Contents(a, d', size) == Contents(a, d, size)
  {
    assert Slot(a, d, NDIRECT) == a[NDIRECT];
    if a[NDIRECT] != 0 { assert Slot(a, d, NDIRECT) in Own(a, d); }
    forall s: nat | s < NSLOTS ensures Slot(a, d', s) == Slot(a, d, s) {
    }
    forall pos: nat | pos < size ensures ByteAt(a, d', pos) == ByteAt(a, d, pos) {
      var s := DataSlot(pos / BSIZE);
      assert pos / BSIZE < BlocksFor(size);
      assert Slot(a, d, s) in Own(a, d);
    }
  }

  /** One operation on inode k: it may change k's addresses, k's blocks and the free map, within the
      contract that bmap, writei and itrunc are proved to meet. */
  ghost predicate Operation(inodes: seq<Addrs>, d: Disk, used: set<nat>,
                            inodes': seq<Addrs>, d': Disk, used': set<nat>, k: nat)
  {
    && k < |inodes| == |inodes'| && inodes' == inodes[k := inodes'[k]]
    && var others := Others(inodes, d, used, k);
       && WellMapped(inodes'[k], d') && others !! Own(inodes'[k], d')
       && used' == others + Own(inodes'[k], d') && SameOn(others, d, d')
  }

  lemma OperationKeepsOwned(inodes: seq<Addrs>, d: Disk, used: set<nat>, meta: set<nat>,
                            inodes': seq<Addrs>, d': Disk, used': set<nat>, k: nat)
    requires Owned(inodes, d, used, meta) && Operation(inodes, d, used, inodes', d', used', k)
    ensures Owned(inodes', d', used', meta)
  {
    SplitOff(inodes, d, used, meta, k);
    var others := Others(inodes, d, used, k);
    forall i | 0 <= i < |inodes| && i != k
      ensures inodes'[i] == inodes[i] && WellMapped(inodes'[i], d') && Own(inodes'[i], d') == Own(inodes[i], d)
              && Own(inodes[i], d) <= others
    {
      Unaffected(inodes[i], d, d', others);
    }
    hide WellMapped, Own, SameOn;
    forall b | b in used' ensures b in meta || exists i :: 0 <= i < |inodes'| && b in Own(inodes'[i], d') {
      if b in Own(inodes'[k], d') {
      } else if b !in meta {
        var i :| 0 <= i < |inodes| && b in Own(inodes[i], d);
        assert i != k && b in Own(inodes'[i], d');
      }
    }
    forall b, i | 0 <= i < |inodes'| && b in Own(inodes'[i], d') ensures b in used' {
    }
  }

  // ---- whole runs ------------------------------------------------------------------------------------

  /** The inode table, the blocks and the free map. */
  datatype State = State(inodes: seq<Dinode>, d: Disk, used: set<nat>)

  /** Over any run of operations, on any inodes in any order, ownership holds throughout. */
  lemma {:induction false} OwnedThroughout(run: seq<State>, meta: set<nat>, n: nat)
    requires n < |run| && Owned(AddrsOf(run[0].inodes), run[0].d, run[0].used, meta)
    requires forall i :: 0 <= i < |run| - 1 ==> Follows(run[i], run[i + 1])
    ensures Owned(AddrsOf(run[n].inodes), run[n].d, run[n].used, meta)
  {
    if n == 0 {
    } else {
      OwnedThroughout(run, meta, n - 1);
      var s, t := run[n - 1], run[n];
      assert Follows(run[n - 1], run[n - 1 + 1]);
      var k: nat :| Operation(AddrsOf(s.inodes), s.d, s.used, AddrsOf(t.inodes), t.d, t.used, k);
      hide Owned, Operation;
      OperationKeepsOwned(AddrsOf(s.inodes), s.d, s.used, meta, AddrsOf(t.inodes), t.d, t.used, k);
    }
  }

  ghost predicate Follows(s: State, t: State) {
    exists k: nat :: Operation(AddrsOf(s.inodes), s.d, s.used, AddrsOf(t.inodes), t.d, t.used, k)
  }

  ghost predicate Consistent(s: State, meta: set<nat>) {
    && Owned(AddrsOf(s.inodes), s.d, s.used, meta)
    && forall i :: 0 <= i < |s.inodes| ==> NoHoles(s.inodes[i].addrs, s.d, s.inodes[i].size)
  }

  ghost function File(s: State, i: nat): seq<byte>
    requires i < |s.inodes|
  {
    Contents(s.inodes[i].addrs, s.d, s.inodes[i].size)
  }

  /** An operation on inode k that leaves it without holes. */
  ghost predicate FileOperation(s: State, t: State, k: nat) {
    && k < |s.inodes| == |t.inodes| && t.inodes == s.inodes[k := t.inodes[k]]
    && Operation(AddrsOf(s.inodes), s.d, s.used, AddrsOf(t.inodes), t.d, t.used, k)
    && NoHoles(t.inodes[k].addrs, t.d, t.inodes[k].size)
  }

  /** Entry i is as it was, and a file without holes keeps its contents and stays without. */
  ghost predicate KeptFile(s: State, t: State, i: nat) {
    i < |s.inodes| ==>
      && i < |t.inodes| && t.inodes[i] == s.inodes[i]
      && (NoHoles(s.inodes[i].addrs, s.d, s.inodes[i].size) ==>
            NoHoles(t.inodes[i].addrs, t.d, t.inodes[i].size) && File(t, i) == File(s, i))
  }

  lemma OthersKept(s: State, t: State, k: nat, meta: set<nat>)
    requires Owned(AddrsOf(s.inodes), s.d, s.used, meta) && k < |s.inodes| == |t.inodes|
    requires t.inodes == s.inodes[k := t.inodes[k]]
    requires Operation(AddrsOf(s.inodes), s.d, s.used, AddrsOf(t.inodes), t.d, t.used, k)
    ensures forall i: nat :: i != k ==> KeptFile(s, t, i)
  {
    var table := AddrsOf(s.inodes);
    SplitOff(table, s.d, s.used, meta, k);
    hide NoHoles, Own, WellMapped, Contents;
    forall i: nat | i != k ensures KeptFile(s, t, i) {
      if i < |s.inodes| && NoHoles(s.inodes[i].addrs, s.d, s.inodes[i].size) {
        assert table[i] == s.inodes[i].addrs;
        UnaffectedContents(table[i], s.d, t.d, Others(table, s.d, s.used, k), s.inodes[i].size);
      }
    }
  }

  lemma FileOperationKeeps(s: State, t: State, k: nat, meta: set<nat>)
    requires Consistent(s, meta) && FileOperation(s, t, k)
    ensures Consistent(t, meta) && |t.inodes| == |s.inodes|
    ensures forall i: nat :: i < |s.inodes| && i != k ==> File(t, i) == File(s, i)
  {
    OperationKeepsOwned(AddrsOf(s.inodes), s.d, s.used, meta, AddrsOf(t.inodes), t.d, t.used, k);
    OthersKept(s, t, k, meta);
    hide NoHoles, Owned, Operation, File;
    forall i: nat | i < |s.inodes| && i != k
      ensures NoHoles(t.inodes[i].addrs, t.d, t.inodes[i].size) && File(t, i) == File(s, i)
    {
      assert KeptFile(s, t, i);
    }
  }

  /** Over any run of operations, on the inodes `ks` in that order, the volume is consistent throughout
      and a file changes only when its own turn comes. */
  lemma {:induction false} ConsistentThroughout(run: seq<State>, ks: seq<nat>, meta: set<nat>, n: nat)
    requires |run| == |ks| + 1 && n <= |ks| && Consistent(run[0], meta)
    requires forall i :: 0 <= i < |ks| ==> FileOperation(run[i], run[i + 1], ks[i])
    ensures Consistent(run[n], meta) && |run[n].inodes| == |run[0].inodes|
    ensures forall j: nat :: j < |run[0].inodes| && j !in ks[..n] ==> File(run[n], j) == File(run[0], j)
  {
    if n == 0 {
    } else {
      ConsistentThroughout(run, ks, meta, n - 1);
      assert FileOperation(run[n - 1], run[n - 1 + 1], ks[n - 1]);
      hide Consistent, FileOperation, File;
      FileOperationKeeps(run[n - 1], run[n], ks[n - 1], meta);
      assert ks[..n] == ks[..n - 1] + [ks[n - 1]];
    }
  }
}
