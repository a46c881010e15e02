/**
  Files as the inode layer sees them: a block is BSIZE bytes, an inode holds NDIRECT
  direct addresses and one indirect block of NINDIRECT little-endian words.
  The slots of an inode are 0 .. NDIRECT - 1 (direct), NDIRECT (the indirect block),
  and NDIRECT + 1 .. NSLOTS - 1 (the words of the indirect block).
 */
module FsSpec {
  import opened Params

  const NDIRECT := 12
  const NINDIRECT := 128      // BSIZE / sizeof(uint)
  const MAXFILE := 140        // NDIRECT + NINDIRECT
  const NSLOTS := 141

  type byte = b: int | 0 <= b < 256
  type Block = s: seq<byte> | |s| == BSIZE witness seq(BSIZE, i => 0)
  type Disk = seq<Block>

  function Zero(): Block {
    seq(BSIZE, i => 0)
  }

  function Word(d: Block, i: nat): nat
    requires i < NINDIRECT
  {
    d[4 * i] as int + 0x100 * d[4 * i + 1] as int + 0x1_0000 * d[4 * i + 2] as int + 0x100_0000 * d[4 * i + 3] as int
  }

  function SetWord(d: Block, i: nat, w: nat): Block
    requires i < NINDIRECT && w < TWO32
  {
    d[4 * i := w % 0x100][4 * i + 1 := w / 0x100 % 0x100]
     [4 * i + 2 := w / 0x1_0000 % 0x100][4 * i + 3 := w / 0x100_0000]
  }

  lemma WordAfterSet(d: Block, i: nat, w: nat, j: nat)
    requires i < NINDIRECT && w < TWO32 && j < NINDIRECT
    ensures Word(SetWord(d, i, w), j) == if i == j then w else Word(d, j)
  {
    if i == j { WordSet(d, i, w); } else { WordKept(d, i, w, j); }
  }

  lemma WordSet(d: Block, i: nat, w: nat)
    requires i < NINDIRECT && w < TWO32
    ensures Word(SetWord(d, i, w), i) == w
  {
    FourBytes(w);
  }

  lemma FourBytes(w: nat)
    ensures w == w % 0x100 + 0x100 * (w / 0x100 % 0x100)
                 + 0x1_0000 * (w / 0x1_0000 % 0x100) + 0x100_0000 * (w / 0x100_0000)
  {
    assert w / 0x100 / 0x100 == w / 0x1_0000 && w / 0x1_0000 / 0x100 == w / 0x100_0000;
  }

  lemma WordKept(d: Block, i: nat, w: nat, j: nat)
    requires i < NINDIRECT && w < TWO32 && j < NINDIRECT && i != j
    ensures Word(SetWord(d, i, w), j) == Word(d, j)
  {
  }

  type Addrs = s: seq<nat> | |s| == NDIRECT + 1 witness seq(NDIRECT + 1, i => 0)

  /** The part of an on-disk inode that says where the contents are. */
  datatype Dinode = Dinode(size: nat, addrs: Addrs)

  function AddrsOf(inodes: seq<Dinode>): (r: seq<Addrs>)
    ensures |r| == |inodes| && forall i :: 0 <= i < |r| ==> r[i] == inodes[i].addrs
  {
    seq(|inodes|, i requires 0 <= i < |inodes| => inodes[i].addrs)
  }

  /** The block number in a slot, 0 if the slot is empty. */
  function Slot(a: Addrs, d: Disk, s: nat): nat
    requires s < NSLOTS
  {
    if s <= NDIRECT then a[s]
    else if a[NDIRECT] == 0 || a[NDIRECT] >= |d| then 0
    else Word(d[a[NDIRECT]], s - NDIRECT - 1)
  }

  /** The slot of file block bn. */
  function DataSlot(bn: nat): nat {
    if bn < NDIRECT then bn else bn + 1
  }

  /** The block numbers an inode uses, the indirect block included. */
  ghost function Own(a: Addrs, d: Disk): set<nat> {
    set s: nat | 0 <= s < NSLOTS && Slot(a, d, s) != 0 :: Slot(a, d, s)
  }

  /** No block in two slots, and every address on the disk. */
  ghost predicate WellMapped(a: Addrs, d: Disk) {
    && (forall s: nat :: s < NSLOTS ==> Slot(a, d, s) < |d|)
    && (forall s: nat, t: nat :: s < t < NSLOTS && Slot(a, d, s) != 0 ==> Slot(a, d, s) != Slot(a, d, t))
  }

  function BlocksFor(size: nat): nat {
    (size + BSIZE - 1) / BSIZE
  }

  /** Every file block below the size has an address. */
  ghost predicate NoHoles(a: Addrs, d: Disk, size: nat) {
    && size <= MAXFILE * BSIZE
    && forall bn: nat :: bn < BlocksFor(size) ==> Slot(a, d, DataSlot(bn)) != 0
  }

  lemma SizeFits(a: Addrs, d: Disk, size: nat)
    requires NoHoles(a, d, size)
    ensures size <= MAXFILE * BSIZE
  {
  }

  /** Byte `pos` of the file; 0 past the largest possible file. */
  function ByteAt(a: Addrs, d: Disk, pos: nat): byte {
    if pos >= MAXFILE * BSIZE then 0
    else
      var b := Slot(a, d, DataSlot(pos / BSIZE));
      if b < |d| then d[b][pos % BSIZE] else 0
  }

  /** The file as a plain byte sequence. */
  ghost function Contents(a: Addrs, d: Disk, size: nat): seq<byte> {
    seq(size, pos requires 0 <= pos < size => ByteAt(a, d, pos))
  }

  // ---- Changing one block ------------------------------------------------------------------

  /** Writing a block that is not the indirect block changes no slot. */
  lemma SlotFrame(a: Addrs, d: Disk, b: nat, c: Block, s: nat)
    requires s < NSLOTS && b < |d| && (b != a[NDIRECT] || b == 0)
    ensures Slot(a, d[b := c], s) == Slot(a, d, s)
  {
  }

  lemma OwnFrame(a: Addrs, d: Disk, b: nat, c: Block)
    requires b < |d| && (b != a[NDIRECT] || b == 0)
    ensures Own(a, d[b := c]) == Own(a, d) && (WellMapped(a, d) ==> WellMapped(a, d[b := c]))
  {
    var d': Disk := d[b := c];
    forall s: nat | s < NSLOTS ensures Slot(a, d', s) == Slot(a, d, s) {
      SlotFrame(a, d, b, c, s);
    }
    assert Own(a, d') == Own(a, d);
  }

  /** Slot s was empty and now holds b; every other slot is as before. */
  ghost predicate Filled(a: Addrs, d: Disk, a': Addrs, d': Disk, s: nat, b: nat)
    requires s < NSLOTS
  {
    && Slot(a, d, s) == 0 && Slot(a', d', s) == b
    && forall t: nat :: t < NSLOTS && t != s ==> Slot(a', d', t) == Slot(a, d, t)
  }

  /** Filling an empty slot with a fresh block adds exactly that block. */
  lemma FilledOwn(a: Addrs, d: Disk, a': Addrs, d': Disk, s: nat, b: nat)
    requires s < NSLOTS && Filled(a, d, a', d', s, b) && b != 0 && b < |d'| == |d|
    requires WellMapped(a, d) && b !in Own(a, d)
    ensures WellMapped(a', d') && Own(a', d') == Own(a, d) + {b}
  {
  }

  lemma FillDirect(a: Addrs, d: Disk, bn: nat, x: nat)
    requires bn < NDIRECT && a[bn] == 0 && x != 0 && x < |d| && x !in Own(a, d)
    ensures Filled(a, d, a[bn := x], d[x := Zero()], bn, x)
  {
    var a': Addrs, d': Disk := a[bn := x], d[x := Zero()];
    if a[NDIRECT] != 0 { assert Slot(a, d, NDIRECT) in Own(a, d); }
    forall t: nat | t < NSLOTS && t != bn ensures Slot(a', d', t) == Slot(a, d, t) {
    }
  }

  lemma FillIndirect(a: Addrs, d: Disk, x: nat)
    requires a[NDIRECT] == 0 && x != 0 && x < |d|
    ensures Filled(a, d, a[NDIRECT := x], d[x := Zero()], NDIRECT, x)
  {
  }

  lemma FillEntry(a: Addrs, d: Disk, n: nat, y: nat)
    requires n < NINDIRECT && 0 != a[NDIRECT] < |d| && Slot(a, d, NDIRECT + 1 + n) == 0
    requires 0 != y < |d| && y < TWO32 && y != a[NDIRECT]
    ensures var ind := a[NDIRECT];
            Filled(a, d, a, d[y := Zero()][ind := SetWord(d[ind], n, y)], NDIRECT + 1 + n, y)
  {
    var ind := a[NDIRECT];
    var d': Disk := d[y := Zero()][ind := SetWord(d[ind], n, y)];
    assert d'[ind] == SetWord(d[ind], n, y);
    forall t: nat | t < NSLOTS ensures Slot(a, d', t) == if t == NDIRECT + 1 + n then y else Slot(a, d, t) {
      if t > NDIRECT { WordAfterSet(d[ind], n, y, t - NDIRECT - 1); }
    }
  }
}
