/** What each block of a volume holds, and how it looks on the disk. */
module FsFormat {
  import opened Params
  import opened FsSpec
  import opened FsBytes
  import opened FsImage
  import Bitmap
  import Log = LogSpec

  /** Where the superblock says the inode blocks and the bitmap are. */
  datatype Layout = Layout(inodestart: nat, bmapstart: nat)

  datatype Content = Bits(bytes: Bitmap.Bytes) | Inodes(entries: seq<Dinode>) | Data(block: Block)

  function InodeBlocks(n: nat): nat { (n + IPB - 1) / IPB }

  function Entries(inodes: seq<Dinode>, k: nat): seq<Dinode>
    requires k < InodeBlocks(|inodes|)
  {
    inodes[k * IPB..Min((k + 1) * IPB, |inodes|)]
  }

  /** What block b of the volume holds. */
  function ContentAt(l: Layout, s: Image, b: nat): Content
    requires b < |s.disk|
  {
    if l.bmapstart <= b < l.bmapstart + |s.bitmap| then Bits(s.bitmap[b - l.bmapstart])
    else if l.inodestart <= b < l.inodestart + InodeBlocks(|s.inodes|) then Inodes(Entries(s.inodes, b - l.inodestart))
    else Data(s.disk[b])
  }

  /** A block that was not logged holds what it held. */
  lemma UnloggedSame(l: Layout, before: Image, after: Image, log: set<nat>, b: nat)
    requires LoggedAll(l.bmapstart, l.inodestart, before, after, log) && b < |after.disk| && b !in log
    ensures ContentAt(l, after, b) == ContentAt(l, before, b)
  {
    if l.bmapstart <= b < l.bmapstart + |after.bitmap| {
      assert after.bitmap[b - l.bmapstart] == before.bitmap[b - l.bmapstart];
    } else if l.inodestart <= b < l.inodestart + InodeBlocks(|after.inodes|) {
      var k := b - l.inodestart;
      forall i: nat | k * IPB <= i < Min((k + 1) * IPB, |after.inodes|) ensures after.inodes[i] == before.inodes[i] {
        assert i / IPB == k;
      }
    }
  }

  // ---- the format of a block --------------------------------------------------------------------------

  /** Both are of one kind, with equally many inodes if they are inodes: what the place of a block tells. */
  predicate Alike(x: Content, y: Content) {
    match (x, y)
    case (Bits(_), Bits(_)) => true
    case (Inodes(xs), Inodes(ys)) => |xs| == |ys|
    case (Data(_), Data(_)) => true
    case _ => false
  }

  predicate Fits32(e: Dinode) { e.size < TWO32 && forall i :: 0 <= i <= NDIRECT ==> e.addrs[i] < TWO32 }

  predicate Storable(c: Content) {
    c.Inodes? ==> |c.entries| <= IPB && forall i :: 0 <= i < |c.entries| ==> Fits32(c.entries[i])
  }

  ghost predicate Stored(s: Image) { forall i :: 0 <= i < |s.inodes| ==> Fits32(s.inodes[i]) }

  /** Contents that may stand in one place are told apart.  Nothing is asked of contents of different kinds. */
  ghost predicate Separates(enc: Content -> Log.Sector) {
    forall x, y :: Alike(x, y) && Storable(x) && Storable(y) && enc(x) == enc(y) ==> x == y
  }

  function AsBlock(bytes: Bitmap.Bytes): Block { seq(BSIZE, i requires 0 <= i < BSIZE => bytes[i] as int) }

  /** Word w of a block of inodes: 16 words each, the third the size, then the addresses.  The first two hold
      type, device and link count, which no write of a file changes. */
  function InodeWord(entries: seq<Dinode>, w: nat): nat {
    var k, f := w / 16, w % 16;
    if k >= |entries| || f < 2 then 0 else if f == 2 then entries[k].size else entries[k].addrs[f - 3]
  }

  /** The format of the disk, in little-endian words. */
  function DiskFormat(c: Content): Log.Sector {
    match c
    case Bits(bytes) => seq(Log.WORDS, i requires 0 <= i < Log.WORDS => Word(AsBlock(bytes), i))
    case Inodes(entries) => seq(Log.WORDS, i requires 0 <= i < Log.WORDS => InodeWord(entries, i))
    case Data(block) => seq(Log.WORDS, i requires 0 <= i < Log.WORDS => Word(block, i))
  }

  lemma LowByte(a: byte, p: nat, b: byte, q: nat)
    requires a + 0x100 * p == b + 0x100 * q
    ensures a == b && p == q
  {
  }

  lemma FourTell(a: byte, b: byte, c: byte, d: byte, x: byte, y: byte, z: byte, w: byte)
    requires a + 0x100 * b + 0x1_0000 * c + 0x100_0000 * d == x + 0x100 * y + 0x1_0000 * z + 0x100_0000 * w
    ensures a == x && b == y && c == z && d == w
  {
    var c', z': nat := c + 0x100 * d, z + 0x100 * w;
    var b', y': nat := b + 0x100 * c', y + 0x100 * z';
    LowByte(a, b', x, y');
    LowByte(b, c', y, z');
    LowByte(c, d, z, w);
  }

  lemma WordsTell(x: Block, y: Block, i: nat)
    requires i < NINDIRECT && Word(x, i) == Word(y, i)
    ensures x[4 * i] == y[4 * i] && x[4 * i + 1] == y[4 * i + 1]
    ensures x[4 * i + 2] == y[4 * i + 2] && x[4 * i + 3] == y[4 * i + 3]
  {
    FourTell(x[4 * i], x[4 * i + 1], x[4 * i + 2], x[4 * i + 3], y[4 * i], y[4 * i + 1], y[4 * i + 2], y[4 * i + 3]);
  }

  lemma BlocksTold(x: Block, y: Block)
    requires forall i: nat :: i < NINDIRECT ==> Word(x, i) == Word(y, i)
    ensures x == y
  {
    hide Word;
    forall k | 0 <= k < BSIZE ensures x[k] == y[k] {
      WordsTell(x, y, k / 4);
    }
  }

  lemma BitsTold(x: Bitmap.Bytes, y: Bitmap.Bytes)
    requires AsBlock(x) == AsBlock(y)
    ensures x == y
  {
    forall k | 0 <= k < BSIZE ensures x[k] == y[k] {
      assert AsBlock(x)[k] == AsBlock(y)[k];
      BytesTold(x[k], y[k]);
    }
  }

  lemma BytesTold(x: bv8, y: bv8)
    requires x as int == y as int
    ensures x == y
  {
    assert x as int as bv8 == y as int as bv8;
  }

  lemma EntriesTold(x: seq<Dinode>, y: seq<Dinode>, k: nat)
    requires |x| == |y| <= IPB && k < |x| && forall i: nat :: i < Log.WORDS ==> InodeWord(x, i) == InodeWord(y, i)
    ensures x[k] == y[k]
  {
    assert InodeWord(x, 16 * k + 2) == InodeWord(y, 16 * k + 2);
    forall i: nat | i <= NDIRECT ensures x[k].addrs[i] == y[k].addrs[i] {
      assert InodeWord(x, 16 * k + 3 + i) == InodeWord(y, 16 * k + 3 + i);
    }
    assert x[k].addrs == y[k].addrs;
  }

  /** The format of the disk meets the condition. */
  lemma FormatSeparates()
    ensures Separates(DiskFormat)
  {
    forall x, y | Alike(x, y) && Storable(x) && Storable(y) && DiskFormat(x) == DiskFormat(y) ensures x == y {
      FormatTells(x, y);
    }
  }

  lemma FormatTells(x: Content, y: Content)
    requires Alike(x, y) && Storable(x) && Storable(y) && DiskFormat(x) == DiskFormat(y)
    ensures x == y
  {
    hide Word, InodeWord;
    var s, t := DiskFormat(x), DiskFormat(y);
    assert forall i: nat :: i < Log.WORDS ==> s[i] == t[i];
    match x {
      case Bits(xs) =>
        assert forall i: nat :: i < NINDIRECT ==> Word(AsBlock(xs), i) == s[i] && Word(AsBlock(y.bytes), i) == t[i];
        BlocksTold(AsBlock(xs), AsBlock(y.bytes));
        BitsTold(xs, y.bytes);
      case Inodes(xs) =>
        assert forall i: nat :: i < Log.WORDS ==> InodeWord(xs, i) == s[i] && InodeWord(y.entries, i) == t[i];
        forall k: nat | k < |xs| ensures xs[k] == y.entries[k] {
          EntriesTold(xs, y.entries, k);
        }
      case Data(xs) =>
        assert forall i: nat :: i < NINDIRECT ==> Word(xs, i) == s[i] && Word(y.block, i) == t[i];
        BlocksTold(xs, y.block);
    }
  }

  /** It does not tell a bitmap block from a data block with the same bytes: no more can be asked. */
  lemma KindsCoincide(bytes: Bitmap.Bytes)
    ensures DiskFormat(Bits(bytes)) == DiskFormat(Data(AsBlock(bytes)))
    ensures !(forall x, y :: DiskFormat(x) == DiskFormat(y) ==> x == y)
  {
  }

  lemma StoredContent(l: Layout, s: Image, b: nat)
    requires Stored(s) && b < |s.disk|
    ensures Storable(ContentAt(l, s, b))
  {
  }

  lemma AlikeAt(l: Layout, s: Image, t: Image, b: nat)
    requires |t.disk| == |s.disk| && |t.bitmap| == |s.bitmap| && |t.inodes| == |s.inodes| && b < |s.disk|
    ensures Alike(ContentAt(l, t, b), ContentAt(l, s, b)) && Alike(ContentAt(l, s, b), ContentAt(l, t, b))
  {
  }
}
