/**
  mkfs: the image it builds satisfies the ownership invariant, and has no holes except
  possibly in the root directory.  Blocks are handed out by a counter and never reused.
 */
module Mkfs {
  import opened Params
  import opened FsSpec
  import opened FsMap
  import opened FsBytes
  import opened Ownership
  import opened Volume
  import opened InodeTable
  import Bitmap

  predicate Below(n: nat, b: nat) { b < n }

  /** The first n block numbers. */
  ghost function First(n: nat): set<nat> {
    set b: nat | 0 <= b < n && Below(n, b)
  }

  lemma FirstGrows(n: nat)
    ensures First(n + 1) == First(n) + {n}
  {
  }

  /** No block is mapped past the end of the file. */
  ghost predicate Snug(a: Addrs, d: Disk, size: nat) {
    forall bn: nat :: BlocksFor(size) <= bn < MAXFILE ==> Slot(a, d, DataSlot(bn)) == 0
  }

  class Image {
    const nmeta: nat
    var disk: Disk
    var inodes: seq<Dinode>
    var freeblock: nat

    /** Blocks below freeblock are metadata or owned by one slot; the others are still zero. */
    ghost predicate Valid() reads this {
      && 1 <= nmeta <= freeblock <= |disk|
      && Owned(AddrsOf(inodes), disk, First(freeblock), First(nmeta))
      && (forall b :: freeblock <= b < |disk| ==> disk[b] == Zero())
    }

    ghost predicate Solid() reads this {
      Valid() && forall i :: 0 <= i < |inodes| ==>
                   NoHoles(inodes[i].addrs, disk, inodes[i].size) && Snug(inodes[i].addrs, disk, inodes[i].size)
    }

    /** The image after the zeroing loop, with `ninodes` empty inodes. */
    constructor (nmeta: nat, fssize: nat, ninodes: nat)
      requires 1 <= nmeta <= fssize
      ensures Solid() && freeblock == nmeta == this.nmeta && |disk| == fssize && |inodes| == ninodes
      ensures forall i :: 0 <= i < ninodes ==> inodes[i].size == 0
    {
      this.nmeta := nmeta;
      var empty: Addrs := seq(NDIRECT + 1, i => 0);
      disk := seq(fssize, i => Zero());
      inodes := seq(ninodes, i => Dinode(0, empty));
      freeblock := nmeta;
      new;
      forall i | 0 <= i < ninodes ensures WellMapped(inodes[i].addrs, disk) && Own(inodes[i].addrs, disk) == {} {
        NothingOwned(inodes[i].addrs, disk);
      }
      assert Below(nmeta, 0);
    }

    /** The addresses `a` being filled own their share of the blocks handed out so far. */
    ghost predicate Has(a: Addrs, others: set<nat>) reads this {
      && 1 <= nmeta <= freeblock <= |disk| < TWO32
      && WellMapped(a, disk) && others !! Own(a, disk) && 0 in others
      && First(freeblock) == others + Own(a, disk)
      && (forall b :: freeblock <= b < |disk| ==> disk[b] == Zero())
    }

    /** Take the next block for a direct slot, or for the indirect block. */
    method TakeSlot(a: Addrs, s: nat, ghost others: set<nat>) returns (ok: bool, a': Addrs)
      requires Has(a, others) && s <= NDIRECT && a[s] == 0
      modifies this`freeblock
      ensures !ok ==> freeblock == old(freeblock) == |disk|
      ensures ok ==> Has(a', others) && a' == a[s := old(freeblock)] && freeblock == old(freeblock) + 1
      ensures ok ==> Grew(a, disk, a', disk, s, old(freeblock), others) && Own(a, disk) <= Own(a', disk)
    {
      if freeblock >= |disk| { return false, a; }
      NextIsNew(freeblock, others, Own(a, disk));
      FirstGrows(freeblock);
      GrowSlot(a, disk, s, freeblock, others);
      assert disk[freeblock := Zero()] == disk;
      a' := a[s := freeblock];
      freeblock := freeblock + 1;
      ok := true;
    }

    /** Take the next block for a word of the indirect block. */
    method TakeEntry(a: Addrs, n: nat, ghost others: set<nat>) returns (ok: bool)
      requires Has(a, others) && n < NINDIRECT && a[NDIRECT] != 0 && Slot(a, disk, NDIRECT + 1 + n) == 0
      modifies this`freeblock, this`disk
      ensures !ok ==> freeblock == old(freeblock) == |disk| && disk == old(disk)
      ensures ok ==> Has(a, others) && freeblock == old(freeblock) + 1
      ensures ok ==> Grew(a, old(disk), a, disk, NDIRECT + 1 + n, old(freeblock), others)
    {
      if freeblock >= |disk| { return false; }
      IndirectOwned(a, disk);
      IndirectInRange(a, disk);
      NextIsNew(freeblock, others, Own(a, disk));
      FirstGrows(freeblock);
      GrowEntry(a, disk, n, freeblock, others);
      assert disk[freeblock := Zero()] == disk;
      assert a[NDIRECT] in First(freeblock);
      disk := disk[a[NDIRECT] := SetWord(disk[a[NDIRECT]], n, freeblock)];
      freeblock := freeblock + 1;
      ok := true;
    }

    /** iappend's block lookup: like bmap, with the counter as allocator; false is an exit. */
    method Fbn(a: Addrs, bn: nat, ghost others: set<nat>) returns (ok: bool, a': Addrs, x: nat, ghost got: seq<nat>)
      requires Has(a, others) && bn < MAXFILE
      modifies this`freeblock, this`disk
      ensures !ok ==> freeblock == |disk|
      ensures |disk| == old(|disk|) && freeblock <= old(freeblock) + 2
      ensures ok ==> Has(a', others) && Mapped(a, old(disk), a', disk, bn, x, got, others)
    {
      hide Mapped, Grew;
      a', x, got, ok := a, 0, [], true;
      if bn < NDIRECT {
        if a[bn] == 0 {
          ghost var b := freeblock;
          ok, a' := TakeSlot(a, bn, others);
          if ok { got := [b]; MappedFresh(a, disk, a', disk, bn, b, others); }
        } else {
          MappedAlready(a, disk, bn, others);
        }
        x := a'[bn];
        return;
      }
      ghost var first: seq<nat> := [];
      if a[NDIRECT] == 0 {
        first := [freeblock];
        ok, a' := TakeSlot(a, NDIRECT, others);
        if !ok { return; }
        EmptyIndirect(a, disk, a', disk, bn - NDIRECT, first[0], others);
      }
      IndirectInRange(a', disk);
      x := Word(disk[a'[NDIRECT]], bn - NDIRECT);
      if x == 0 {
        ghost var d1 := disk;
        x := freeblock;
        ok := TakeEntry(a', bn - NDIRECT, others);
        if !ok { return; }
        MappedFresh(a', d1, a', disk, bn, x, others);
        got := [x];
        if first != [] {
          MappedTwice(a, d1, a', d1, disk, bn, first[0], x, others);
          got := [first[0], x];
        }
      } else {
        MappedAlready(a', disk, bn, others);
      }
    }

    /** Append xp to inode inum; false is an exit.  Every other file keeps its bytes. */
    method Iappend(inum: nat, xp: seq<byte>) returns (ok: bool)
      requires Solid() && inum < |inodes| && |disk| < TWO32
      modifies this`disk, this`inodes, this`freeblock
      ensures !ok ==> freeblock == |disk| || old(inodes[inum].size) + |xp| > MAXFILE * BSIZE
      ensures |disk| == old(|disk|) && freeblock <= old(freeblock) + 2 * Span(old(inodes[inum].size), |xp|)
      ensures ok ==>
                && Solid() && |disk| == old(|disk|) && |inodes| == old(|inodes|)
                && inodes == old(inodes)[inum := inodes[inum]]
                && Contents(inodes[inum].addrs, disk, inodes[inum].size)
                   == old(Contents(inodes[inum].addrs, disk, inodes[inum].size)) + xp
                && forall i :: 0 <= i < |inodes| && i != inum ==>
                     Contents(inodes[i].addrs, disk, inodes[i].size)
                     == old(Contents(inodes[i].addrs, disk, inodes[i].size))
    {
      ghost var table := AddrsOf(inodes);
      ghost var others := Others(table, disk, First(freeblock), inum);
      SplitOff(table, disk, First(freeblock), First(nmeta), inum);
      var a, size := inodes[inum].addrs, inodes[inum].size;
      ghost var d0, f0 := disk, freeblock;
      var a1;
      hide Owned, WellMapped, Own, Written, Snug, NoHoles, SameOn;
      ok, a1 := AppendLoop(a, size, xp, others);
      if !ok { return; }
      WrittenContents(a, d0, size, size, xp, a1, disk);
      WrittenNoHoles(a, d0, size, size, xp, |xp|, a1, disk);
      ghost var inodes0 := inodes;
      inodes := inodes[inum := Dinode(size + |xp|, a1)];
      assert AddrsOf(inodes) == table[inum := a1];
      OperationKeepsOwned(table, d0, First(f0), First(nmeta), AddrsOf(inodes), disk, First(freeblock), inum);
      forall i | 0 <= i < |inodes| && i != inum
        ensures Contents(inodes[i].addrs, disk, inodes[i].size) == Contents(inodes0[i].addrs, d0, inodes0[i].size)
                && NoHoles(inodes[i].addrs, disk, inodes[i].size) && Snug(inodes[i].addrs, disk, inodes[i].size)
      {
        assert Own(table[i], d0) <= others;
        OtherFile(inodes0[i].addrs, d0, disk, inodes0[i].size, others);
      }
      assert Replaced(Contents(a, d0, size), size, xp) == Contents(a, d0, size) + xp;
    }

    method AppendLoop(a: Addrs, size: nat, xp: seq<byte>, ghost others: set<nat>) returns (ok: bool, a': Addrs)
      requires Has(a, others) && NoHoles(a, disk, size) && Snug(a, disk, size)
      modifies this`disk, this`freeblock
      ensures !ok ==> freeblock == |disk| || size + |xp| > MAXFILE * BSIZE
      ensures |disk| == old(|disk|) && freeblock <= old(freeblock) + 2 * Span(size, |xp|)
      ensures ok ==>
                && Has(a', others) && SameOn(others, old(disk), disk) && Snug(a', disk, size + |xp|)
                && Written(a, old(disk), size, size, xp, |xp|, a', disk)
    {
      hide Written, Mapped, NoHoles, Snug, WellMapped, Own, SameOn, Span;
      SameOnSelf(others, disk);
      SizeFits(a, disk, size);
      PastInFile(size, 0);
      WrittenNothing(a, disk, size, size, xp);
      a' := a;
      var tot, n := 0, |xp|;
      while tot < n
        invariant 0 <= tot <= n && Has(a', others) && SameOn(others, old(disk), disk) && Snug(a', disk, size + tot)
        invariant Written(a, old(disk), size, size, xp, tot, a', disk)
        invariant |disk| == old(|disk|) && freeblock <= old(freeblock) + 2 * Span(size, tot)
        invariant Span(size, tot) <= Span(size, n)
        invariant 0 < tot < n ==> (size + tot) % BSIZE == 0
      {
        var fbn := (size + tot) / BSIZE;
        if fbn >= MAXFILE { return false, a'; }
        ghost var a0, d0 := a', disk;
        var n1 := Min(n - tot, (fbn + 1) * BSIZE - (size + tot));
        assert n1 == Min(n - tot, BSIZE - (size + tot) % BSIZE);
        PastNext(size, tot, n1, n);
        ghost var x, got, d1;
        ok, a', x, got, d1 := AppendOne(a', size + tot, xp[tot..tot + n1], others);
        if !ok { return; }
        WrittenStep(a, old(disk), size, size, xp, tot, a0, d0, a', d1, x, got, others, n1);
        SameOnTwice(others, old(disk), d0, disk);
        tot := tot + n1;
      }
      ok := true;
    }

    /** One turn of iappend's loop: the bytes that go into one block. */
    method AppendOne(a: Addrs, o: nat, chunk: seq<byte>, ghost others: set<nat>)
      returns (ok: bool, a': Addrs, ghost b: nat, ghost got: seq<nat>, ghost d1: Disk)
      requires Has(a, others) && Snug(a, disk, o) && o / BSIZE < MAXFILE && chunk != [] && o % BSIZE + |chunk| <= BSIZE
      modifies this`disk, this`freeblock
      ensures !ok ==> freeblock == |disk|
      ensures |disk| == old(|disk|) && freeblock <= old(freeblock) + 2
      ensures ok ==>
                && Has(a', others) && SameOn(others, old(disk), disk) && Snug(a', disk, o + |chunk|)
                && WellMapped(a', d1) && Mapped(a, old(disk), a', d1, o / BSIZE, b, got, others)
                && b < |d1| && disk == d1[b := Splice(d1[b], o % BSIZE, chunk)]
    {
      hide Mapped, Snug;
      b, d1 := 0, disk;
      var x;
      ok, a', x, got := Fbn(a, o / BSIZE, others);
      if !ok { return; }
      b, d1 := x, disk;
      MappedInDisk(a, old(disk), a', disk, o / BSIZE, x, got, others);
      var block := Splice(disk[x], o % BSIZE, chunk);
      SnugStep(a, old(disk), a', disk, o / BSIZE, x, got, others, o, |chunk|, block);
      WriteKeepsHas(a, old(disk), a', x, o / BSIZE, got, others, block);
      disk := disk[x := block];
    }

    lemma WriteKeepsHas(a0: Addrs, d0: Disk, a: Addrs, x: nat, bn: nat, got: seq<nat>, others: set<nat>, block: Block)
      requires bn < MAXFILE && Has(a, others) && Mapped(a0, d0, a, disk, bn, x, got, others)
      ensures x < freeblock && x !in others && SameOn(others, d0, disk[x := block])
      ensures WellMapped(a, disk[x := block]) && Own(a, disk[x := block]) == Own(a, disk)
    {
      MappedElsewhere(a0, d0, a, disk, bn, x, got, others);
      DataWriteOwns(a, disk, bn, x, block);
      assert x in Own(a, disk) && x in First(freeblock);
    }

    /** "fix size of root inode dir": round up to a whole block, and one block more if it was whole already. */
    method FixRoot(root: nat)
      requires Solid() && root < |inodes| && inodes[root].size < MAXFILE * BSIZE
      modifies this`inodes
      ensures Valid()
      ensures inodes == old(inodes)[root := Dinode((old(inodes[root].size) / BSIZE + 1) * BSIZE,
                                                   old(inodes[root].addrs))]
      ensures NoHoles(inodes[root].addrs, disk, inodes[root].size) <==> old(inodes[root].size) % BSIZE != 0
      ensures forall i :: 0 <= i < |inodes| && i != root ==> NoHoles(inodes[i].addrs, disk, inodes[i].size)
    {
      var din := inodes[root];
      RootSolidExactly(din.addrs, disk, din.size);
      inodes := inodes[root := Dinode((din.size / BSIZE + 1) * BSIZE, din.addrs)];
      assert AddrsOf(inodes) == AddrsOf(old(inodes));
    }
  }

  lemma SnugStep(a: Addrs, d: Disk, a': Addrs, d1: Disk, bn: nat, b: nat, got: seq<nat>, others: set<nat>,
                 o: nat, m: nat, block: Block)
    requires bn == o / BSIZE < MAXFILE && m >= 1 && Snug(a, d, o) && WellMapped(a', d1)
    requires Mapped(a, d, a', d1, bn, b, got, others) && b < |d1|
    ensures Snug(a', d1[b := block], o + m)
  {
    assert Slot(a', d1, NDIRECT) == a'[NDIRECT] && b != a'[NDIRECT];
    forall k: nat | BlocksFor(o + m) <= k < MAXFILE ensures Slot(a', d1[b := block], DataSlot(k)) == 0 {
      SlotFrame(a', d1, b, block, DataSlot(k));
      assert k != bn && Slot(a, d, DataSlot(k)) == 0;
    }
  }

  /** A file none of whose blocks changed reads the same. */
  lemma OtherFile(a: Addrs, d: Disk, d': Disk, size: nat, others: set<nat>)
    requires WellMapped(a, d) && Own(a, d) <= others && SameOn(others, d, d') && NoHoles(a, d, size)
    ensures Contents(a, d', size) == Contents(a, d, size) && NoHoles(a, d', size)
    ensures Snug(a, d, size) ==> Snug(a, d', size)
  {
    UnaffectedContents(a, d, d', others, size);
    assert Slot(a, d, NDIRECT) == a[NDIRECT];
    if a[NDIRECT] != 0 { assert Slot(a, d, NDIRECT) in Own(a, d); }
    forall s: nat | s < NSLOTS ensures Slot(a, d', s) == Slot(a, d, s) {
    }
  }

  /** The root directory has no holes after the size fix exactly when its length was not a whole
      number of blocks. */
  lemma RootSolidExactly(a: Addrs, d: Disk, size: nat)
    requires NoHoles(a, d, size) && size < MAXFILE * BSIZE && Snug(a, d, size)
    ensures NoHoles(a, d, (size / BSIZE + 1) * BSIZE) <==> size % BSIZE != 0
  {
    if size % BSIZE == 0 {
      assert BlocksFor((size / BSIZE + 1) * BSIZE) == size / BSIZE + 1 && BlocksFor(size) == size / BSIZE;
      assert Slot(a, d, DataSlot(size / BSIZE)) == 0;
    } else {
      assert BlocksFor((size / BSIZE + 1) * BSIZE) == BlocksFor(size);
    }
  }

  /** What the condition excludes: 32 directory entries of 16 bytes fill the root's block, and the size
      fix makes a hole. */
  method HoledRoot() returns (image: Image)
    ensures fresh(image) && image.Valid() && image.nmeta == 59 && |image.disk| == 1000 && |image.inodes| == 200
    ensures image.inodes[1].size == 2 * BSIZE && !NoHoles(image.inodes[1].addrs, image.disk, image.inodes[1].size)
  {
    hide Image.Valid, NoHoles, Snug, Own, WellMapped;
    image := new Image(59, 1000, 200);
    var n := 0;
    while n < 32
      invariant 0 <= n <= 32 && fresh(image) && image.Solid() && image.freeblock <= 59 + 4 * n
      invariant image.nmeta == 59 && |image.disk| == 1000 && |image.inodes| == 200 && image.inodes[1].size == 16 * n
    {
      var entry: seq<byte> := seq(16, i => if i == 0 then 1 else 0);
      ghost var file := Contents(image.inodes[1].addrs, image.disk, image.inodes[1].size);
      assert Span(16 * n, 16) <= 2;
      var ok := image.Iappend(1, entry);
      assert ok;
      assert |Contents(image.inodes[1].addrs, image.disk, image.inodes[1].size)| == |file + entry|;
      n := n + 1;
    }
    image.FixRoot(1);
  }

  /** The finished image, mounted: the free map and the inode table agree on every block. */
  method Finish(image: Image, bmapstart: nat, inodestart: nat) returns (v: Volume)
    requires image.Valid() && image.freeblock < Bitmap.BPB && |image.disk| <= Bitmap.BPB
    ensures fresh(v) && v.disk == image.disk && v.inodes == image.inodes && Sound(v, First(image.nmeta))
    ensures (forall i :: 0 <= i < |v.inodes| ==> NoHoles(v.inodes[i].addrs, v.disk, v.inodes[i].size)) ==>
              Consistent(StateOf(v), First(image.nmeta))
  {
    hide Owned, NoHoles, Bitmap.Used;
    var buf := Balloc(image.freeblock);
    BelowSize(buf, image.freeblock, |image.disk|);
    v := new Volume(|image.disk|, bmapstart, inodestart, [buf], image.disk, image.inodes);
  }

  lemma BelowSize(buf: Bitmap.Bytes, used: nat, size: nat)
    requires Bitmap.Used([buf], Bitmap.BPB) == First(used) && used <= size <= Bitmap.BPB
    ensures Bitmap.Used([buf], size) == First(used)
  {
    hide Bitmap.Marked;
    forall b: nat | b in First(used) ensures b in Bitmap.Used([buf], size) {
      assert b in Bitmap.Used([buf], Bitmap.BPB);
    }
    forall b: nat | b in Bitmap.Used([buf], size) ensures b in First(used) {
      assert b in Bitmap.Used([buf], Bitmap.BPB);
    }
  }

  /** mkfs's balloc: the bitmap block with the first `used` bits set. */
  method Balloc(used: nat) returns (buf: Bitmap.Bytes)
    requires used < Bitmap.BPB
    ensures Bitmap.Used([buf], Bitmap.BPB) == First(used)
  {
    buf := seq(BSIZE, i => 0);
    forall j: nat | j < Bitmap.BPB ensures !Bitmap.TestBit(buf, j) {
      assert buf[j / 8] == 0;
    }
    var i := 0;
    while i < used
      invariant 0 <= i <= used
      invariant forall j: nat :: j < Bitmap.BPB ==> (Bitmap.TestBit(buf, j) <==> j < i)
    {
      forall j: nat | j < Bitmap.BPB
        ensures Bitmap.TestBit(Bitmap.SetBit(buf, i), j) <==> i == j || Bitmap.TestBit(buf, j)
      {
        Bitmap.SetBitTests(buf, i, j);
      }
      buf := Bitmap.SetBit(buf, i);
      i := i + 1;
    }
    forall b: nat | b < Bitmap.BPB ensures b in Bitmap.Used([buf], Bitmap.BPB) <==> b in First(used) {
      assert Bitmap.Marked([buf], b) == Bitmap.TestBit(buf, b);
      assert Below(used, b) <==> b < used;
    }
  }

  lemma NextIsNew(n: nat, others: set<nat>, own: set<nat>)
    requires First(n) == others + own
    ensures n !in others && n !in own
  {
  }
}
