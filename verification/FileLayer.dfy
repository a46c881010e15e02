/** file.c: filewrite cuts a write into chunks that fit one log transaction each. */
module FileLayer {
  import opened Params
  import opened FsSpec
  import opened FsMap
  import opened FsBytes
  import opened FsLog
  import opened FsImage
  import opened Volume
  import Bitmap

  const CHUNK := 1536           // ((MAXOPBLOCKS - 1 - 1 - 2) / 2) * 512

  /** A chunk's file blocks and the ones it has to allocate: with no holes at most four and four. */
  lemma ChunkFits(a: Addrs, d: Disk, size: nat, off: nat, n: nat)
    requires off <= size && n <= CHUNK && off + n <= MAXFILE * BSIZE
    ensures off / BSIZE <= Past(off, n) <= MAXFILE
    ensures Span(off, n) + Needed(a, d, off / BSIZE, Past(off, n)) <= MAXOPBLOCKS - 1
    ensures NoHoles(a, d, size) ==> Span(off, n) + Needed(a, d, off / BSIZE, Past(off, n)) <= MAXOPBLOCKS - 2
  {
    hide NoHoles, FillsIndirect;
    PastInFile(off, n);
    MissingAtMost(a, d, size, off / BSIZE, Past(off, n));
  }

  /** One chunk logs at most MAXOPBLOCKS blocks if the file has no holes, and at most one more if it has. */
  lemma TransactionFits(bmapstart: nat, a0: Addrs, d0: Disk, used0: set<nat>, inode: set<nat>, size: nat, off: nat,
                        n: nat, a: Addrs, d: Disk, used: set<nat>, log: set<nat>, got: seq<nat>)
    requires off <= size && n <= CHUNK && off + n <= MAXFILE * BSIZE && |inode| <= 1
    requires Logging(bmapstart, a0, d0, used0, inode, off / BSIZE, Past(off, n), a, d, used, log, got)
    ensures |log| <= MAXOPBLOCKS + 1
    ensures NoHoles(a0, d0, size) ==> |log| <= MAXOPBLOCKS
  {
    hide NoHoles, Needed, FillsIndirect, Logging, Span;
    ChunkFits(a0, d0, size, off, n);
    LoggedAtMost(bmapstart, a0, d0, used0, inode, off / BSIZE, Past(off, n), a, d, used, log, got);
  }

  /**
    Exactly when it does not exceed MAXOPBLOCKS, from what is known before the write: `free` are the blocks
    it will allocate, the lowest free ones, and bitmap and inode block are metadata.
   */
  lemma FitsExactly(bmapstart: nat, a0: Addrs, d0: Disk, used0: set<nat>, inode: set<nat>, off: nat, n: nat,
                    a: Addrs, d: Disk, used: set<nat>, log: set<nat>, got: seq<nat>, free: seq<nat>)
    requires Logging(bmapstart, a0, d0, used0, inode, off / BSIZE, Past(off, n), a, d, used, log, got)
    requires InOrder(used0, free) && |free| == Needed(a0, d0, off / BSIZE, Past(off, n)) && WellMapped(a, d)
    requires inode !! BBlocks(bmapstart, free) && inode + BBlocks(bmapstart, free) !! Own(a, d)
    ensures |log| <= MAXOPBLOCKS <==>
              |inode| + Span(off, n) + |BBlocks(bmapstart, free)|
              + One(FillsIndirect(a0, d0, off / BSIZE, Past(off, n))) <= MAXOPBLOCKS
  {
    hide Own, WellMapped, InOrder, Logging, Needed, FillsIndirect, BBlocks;
    LoggingTook(bmapstart, a0, d0, used0, inode, off / BSIZE, Past(off, n), a, d, used, log, got);
    InOrderAlike(used0, got, free, |free|);
    assert got == got[..|free|] == free[..|free|] == free;
    LoggedExactly(bmapstart, a0, d0, used0, inode, off / BSIZE, Past(off, n), a, d, used, log, got);
  }

  // ---- the bound is reached ----------------------------------------------------------------------

  /** The bitmap and the inode's block are metadata, and different. */
  ghost predicate Layout(v: Volume, inum: nat, others: set<nat>) {
    && IBlock(v.inodestart, inum) in others && IBlock(v.inodestart, inum) < v.bmapstart
    && forall b: nat :: b < v.size ==> BBlock(v.bmapstart, b) in others
  }

  /**
    The chunk at the end of a file of twelve blocks less a byte.  If the blocks it allocates are under
    different bitmap blocks it logs exactly MAXOPBLOCKS blocks, and one more if block 11 is a hole.
   */
  method LargestChunk(v: Volume, ip: Inode, src: seq<byte>, ghost others: set<nat>, ghost free: seq<nat>)
    returns (w: Outcome)
    requires v.Owns(ip, others) && ip.inum < |v.inodes| && v.logged == {} && Layout(v, ip.inum, others)
    requires ip.size == NDIRECT * BSIZE - 1 && ip.addrs[NDIRECT] == 0 && |src| == CHUNK
    requires |free| == 4 + One(ip.addrs[NDIRECT - 1] == 0) && forall f :: f in free ==> f < v.size
    requires InOrder(v.Used(), free) && Spread(v.bmapstart, free)
    modifies v, ip
    ensures w == Done(CHUNK) && v.Owns(ip, others) && ip.size == NDIRECT * BSIZE - 1 + CHUNK
    ensures |v.logged| == MAXOPBLOCKS + One(old(ip.addrs)[NDIRECT - 1] == 0)
  {
    hide Own, WellMapped, InOrder, Spread, Logging, Needed, Slot, Bitmap.Used, Past, Layout, FillsIndirect, NoHoles,
         Contents;
    ghost var a0, d0, used0 := ip.addrs, v.disk, v.Used();
    NeededThere(a0, d0);
    EnoughFree(v, free);
    ghost var got;
    w, got := v.Writei(ip, src, ip.size, others);
    assert w.Done?;
    BitmapApart(v, ip, others, free);
    LargestCount(v.bmapstart, a0, d0, used0, IBlock(v.inodestart, ip.inum), ip.addrs, v.disk, v.Used(), v.logged, got,
                 free);
  }

  lemma LargestCount(bmapstart: nat, a0: Addrs, d0: Disk, used0: set<nat>, inode: nat,
                     a: Addrs, d: Disk, used: set<nat>, log: set<nat>, got: seq<nat>, free: seq<nat>)
    requires Logging(bmapstart, a0, d0, used0, {} + {inode}, NDIRECT - 1, NDIRECT + 3, a, d, used, log, got)
    requires a0[NDIRECT] == 0
    requires InOrder(used0, free) && |free| == 4 + One(a0[NDIRECT - 1] == 0) && Spread(bmapstart, free)
    requires WellMapped(a, d) && {inode} !! BBlocks(bmapstart, free)
    requires {inode} !! Own(a, d) && BBlocks(bmapstart, free) !! Own(a, d)
    ensures |log| == MAXOPBLOCKS + One(a0[NDIRECT - 1] == 0)
  {
    hide Own, WellMapped, InOrder, Spread, Logging, Needed, Slot, FillsIndirect, BBlocks;
    NeededThere(a0, d0);
    assert {} + {inode} == {inode};
    LoggingTook(bmapstart, a0, d0, used0, {inode}, NDIRECT - 1, NDIRECT + 3, a, d, used, log, got);
    InOrderAlike(used0, got, free, |free|);
    assert got == got[..|free|] == free[..|free|] == free;
    LoggedExactly(bmapstart, a0, d0, used0, {inode}, NDIRECT - 1, NDIRECT + 3, a, d, used, log, got);
  }

  lemma NeededThere(a: Addrs, d: Disk)
    requires a[NDIRECT] == 0
    ensures Needed(a, d, NDIRECT - 1, NDIRECT + 3) == 4 + One(a[NDIRECT - 1] == 0)
    ensures FillsIndirect(a, d, NDIRECT - 1, NDIRECT + 3)
    ensures (NDIRECT * BSIZE - 1) / BSIZE == NDIRECT - 1 && Past(NDIRECT * BSIZE - 1, CHUNK) == NDIRECT + 3
  {
    assert Slot(a, d, DataSlot(NDIRECT)) == 0;
    assert Missing(a, d, NDIRECT - 1, NDIRECT - 1) == 0;
    assert Missing(a, d, NDIRECT - 1, NDIRECT) == One(a[NDIRECT - 1] == 0);
    assert Missing(a, d, NDIRECT - 1, NDIRECT + 1) == 1 + One(a[NDIRECT - 1] == 0);
    assert Missing(a, d, NDIRECT - 1, NDIRECT + 2) == 2 + One(a[NDIRECT - 1] == 0);
  }

  lemma EnoughFree(v: Volume, free: seq<nat>)
    requires v.Shape() && InOrder(v.Used(), free) && forall f :: f in free ==> f < v.size
    ensures |free| <= |v.Free()|
  {
    InOrderDistinct(v.Used(), free);
    hide InOrder, Bitmap.Used;
    Subset(Elems(free), v.Free());
  }

  lemma BitmapApart(v: Volume, ip: Inode, others: set<nat>, free: seq<nat>)
    requires v.Owns(ip, others) && Layout(v, ip.inum, others) && forall f :: f in free ==> f < v.size
    ensures {IBlock(v.inodestart, ip.inum)} !! BBlocks(v.bmapstart, free)
    ensures {IBlock(v.inodestart, ip.inum)} !! Own(ip.addrs, v.disk)
    ensures BBlocks(v.bmapstart, free) !! Own(ip.addrs, v.disk)
  {
    hide Own, WellMapped, Bitmap.Used;
    forall x | x in BBlocks(v.bmapstart, free) ensures x in others && x >= v.bmapstart {
      var i: nat :| i < |free| && BBlock(v.bmapstart, free[i]) == x;
      assert free[i] in free;
    }
  }

  function Ones(): Bitmap.Bytes { seq(BSIZE, i => 0xFF) }

  lemma OnesTest(i: nat)
    requires i < Bitmap.BPB
    ensures Bitmap.TestBit(Ones(), i)
  {
  }

  /** Of the blocks below size, exactly those in `free` are not in use. */
  ghost predicate OnlyFree(used: set<nat>, size: nat, free: seq<nat>) {
    forall b: nat :: b in used <==> b < size && b !in free
  }

  lemma AllUsed(bitmap: seq<Bitmap.Bytes>, size: nat)
    requires size <= |bitmap| * Bitmap.BPB && forall i :: 0 <= i < |bitmap| ==> bitmap[i] == Ones()
    ensures OnlyFree(Bitmap.Used(bitmap, size), size, [])
  {
    forall b: nat | b < size ensures Bitmap.Marked(bitmap, b) {
      OnesTest(b % Bitmap.BPB);
    }
  }

  /** Taken in increasing order, each is the lowest free one in its turn. */
  lemma Increasing(used: set<nat>, size: nat, free: seq<nat>)
    requires OnlyFree(used, size, free) && forall i, j :: 0 <= i < j < |free| ==> free[i] < free[j]
    requires forall i :: 0 <= i < |free| ==> free[i] < size
    ensures InOrder(used, free)
  {
    forall i | 0 <= i < |free| ensures FirstFree(used + Elems(free[..i]), free[i]) {
      forall c: nat | c < free[i] ensures c in used + Elems(free[..i]) {
        if c in free {
          var j :| 0 <= j < |free| && free[j] == c;
          assert free[..i][j] == c;
        }
      }
    }
  }

  /** A free map with nothing but the given blocks free. */
  method FreeMap(nblocks: nat, size: nat, free: seq<nat>) returns (bitmap: seq<Bitmap.Bytes>)
    requires size <= nblocks * Bitmap.BPB && forall i :: 0 <= i < |free| ==> free[i] < size
    ensures |bitmap| == nblocks && OnlyFree(Bitmap.Used(bitmap, size), size, free)
  {
    hide Bitmap.Used, Bitmap.ClearBit;
    bitmap := seq(nblocks, i => Ones());
    AllUsed(bitmap, size);
    var i := 0;
    while i < |free|
      invariant 0 <= i <= |free| && |bitmap| == nblocks && OnlyFree(Bitmap.Used(bitmap, size), size, free[..i])
    {
      var b := free[i];
      Bitmap.UnmarkOne(bitmap, size, b);
      bitmap := bitmap[b / Bitmap.BPB := Bitmap.ClearBit(bitmap[b / Bitmap.BPB], b % Bitmap.BPB)];
      assert free[..i + 1] == free[..i] + [b];
      i := i + 1;
    }
    assert free[..|free|] == free;
  }

  /** Such volumes exist, with a hole and without. */
  method LargestChunkExists(hole: bool) returns (v: Volume, ip: Inode, w: Outcome, ghost solid: bool)
    ensures solid == !hole && w == Done(CHUNK) && |v.logged| == MAXOPBLOCKS + One(hole)
  {
    hide Own, WellMapped, InOrder, Spread, Slot, Bitmap.Used, Layout, NoHoles;
    var size := 16385;
    var free := [4095, 4096, 8192, 12288] + if hole then [16384] else [];
    var bitmap := FreeMap(5, size, free);
    var addrs := TwelveBlocks(hole);
    ip := new Inode(0, NDIRECT * BSIZE - 1, addrs);
    v := new Volume(size, 58, 32, bitmap, seq(size, i => Zero()), [Dinode(ip.size, addrs)]);
    TwelveMapped(v.disk, hole);
    ghost var others := v.Used() - Own(addrs, v.disk);
    solid := NoHoles(addrs, v.disk, ip.size);
    Increasing(v.Used(), size, free);
    MetadataApart(v, hole, free, others);
    var src: seq<byte> := seq(CHUNK, i => 7);
    w := LargestChunk(v, ip, src, others, free);
  }

  function TwelveBlocks(hole: bool): Addrs {
    seq(NDIRECT + 1, i => if i == NDIRECT || (hole && i == NDIRECT - 1) then 0 else 100 + i)
  }

  lemma TwelveMapped(d: Disk, hole: bool)
    requires |d| > 112
    ensures WellMapped(TwelveBlocks(hole), d) && forall b :: b in Own(TwelveBlocks(hole), d) ==> 100 <= b < 112
    ensures NoHoles(TwelveBlocks(hole), d, NDIRECT * BSIZE - 1) == !hole
  {
    if hole { assert Slot(TwelveBlocks(hole), d, DataSlot(NDIRECT - 1)) == 0; }
  }

  lemma MetadataApart(v: Volume, hole: bool, free: seq<nat>, others: set<nat>)
    requires v.size == 16385 && v.bmapstart == 58 && v.inodestart == 32 && v.Shape() && OnlyFree(v.Used(), v.size, free)
    requires free == [4095, 4096, 8192, 12288] + if hole then [16384] else []
    requires others == v.Used() - Own(TwelveBlocks(hole), v.disk)
    requires forall b :: b in Own(TwelveBlocks(hole), v.disk) ==> 100 <= b < 112
    ensures Layout(v, 0, others) && Spread(v.bmapstart, free)
    ensures 0 in others && v.Used() == others + Own(TwelveBlocks(hole), v.disk)
  {
    hide Own, Bitmap.Used;
  }

  class File {
    const ip: Inode
    var off: nat

    constructor (ip: Inode)
      ensures this.ip == ip && off == 0
    {
      this.ip, off := ip, 0;
    }
  }

  /** The inode is locked and up to date, and owns its blocks on the volume. */
  ghost predicate Ready(v: Volume, ip: Inode, others: set<nat>)
    reads v, ip
  {
    && v.Owns(ip, others) && NoHoles(ip.addrs, v.disk, ip.size)
    && ip.inum < |v.inodes| && v.inodes[ip.inum] == Dinode(ip.size, ip.addrs)
  }

  /** The file is file0 with the first i bytes of src written at off. */
  ghost predicate Holds(file: seq<byte>, file0: seq<byte>, off: nat, src: seq<byte>, i: nat) {
    && i <= |src|
    && (i == 0 ==> file == file0)
    && (i > 0 ==> off <= |file0| && file == Replaced(file0, off, src[..i]))
  }

  lemma HoldsNothing(file: seq<byte>, off: nat, src: seq<byte>)
    ensures Holds(file, file, off, src, 0)
  {
  }

  lemma HoldsMore(f1: seq<byte>, f2: seq<byte>, file0: seq<byte>, off: nat, src: seq<byte>, i: nat, n: nat)
    requires Holds(f1, file0, off, src, i) && 1 <= n && i + n <= |src|
    requires off + i <= |f1| && f2 == Replaced(f1, off + i, src[i..i + n])
    ensures Holds(f2, file0, off, src, i + n)
  {
  }

  /** writei turns the chunk down: it starts past the end, or ends past the largest file. */
  predicate Refused(size: nat, off: nat, n: nat) {
    off > size || (off + n) % TWO32 < off || (off + n) % TWO32 > MAXFILE * BSIZE
  }

  /** The next chunk when i of n bytes are written. */
  function Next(n: nat, i: int): nat { if i < 0 || i > n then 0 else if n - i > CHUNK then CHUNK else n - i }

  /** One transaction of a write: the volume after it, the blocks it logged, and how much is written. */
  datatype Chunk = Chunk(after: Image, log: set<nat>, upto: nat)

  /** The volume before transaction k. */
  function Before(image: Image, trail: seq<Chunk>, k: nat): Image
    requires k <= |trail|
  {
    if k == 0 then image else trail[k - 1].after
  }

  /** Only the inode's entry differs from `start`, and it is mapped without holes to blocks of its own. */
  ghost predicate Sane(start: Image, s: Image, inum: nat, others: set<nat>) {
    && inum < |start.inodes| == |s.inodes| && s.inodes == start.inodes[inum := s.inodes[inum]] && |s.disk| < TWO32
    && WellMapped(s.inodes[inum].addrs, s.disk) && others !! Own(s.inodes[inum].addrs, s.disk)
    && NoHoles(s.inodes[inum].addrs, s.disk, s.inodes[inum].size)
  }

  /** Every transaction fits, logs all it changes, and leaves a longer part of src in the file. */
  ghost predicate Trail(v: Volume, start: Image, trail: seq<Chunk>, inum: nat, others: set<nat>, off: nat,
                        src: seq<byte>)
  {
    inum < |start.inodes| && forall k: nat :: k < |trail| ==> TrailAt(v, start, trail, k, inum, others, off, src)
  }

  ghost predicate TrailAt(v: Volume, start: Image, trail: seq<Chunk>, k: nat, inum: nat, others: set<nat>, off: nat,
                          src: seq<byte>)
    requires k < |trail| && inum < |start.inodes|
  {
    && LoggedAll(v.bmapstart, v.inodestart, Before(start, trail, k), trail[k].after, trail[k].log)
    && |trail[k].log| <= MAXOPBLOCKS && Sane(start, trail[k].after, inum, others)
    && Holds(ImageFile(trail[k].after, inum), ImageFile(start, inum), off, src, trail[k].upto)
  }

  /** How much of src is in the file after n transactions. */
  function Upto(trail: seq<Chunk>, n: nat): nat
    requires n <= |trail|
  {
    if n == 0 then 0 else trail[n - 1].upto
  }

  /** Write src at the file's offset.  Done: all of it is in the file.  Failed: the bytes before the new
      offset are.  Every transaction on the way logs at most MAXOPBLOCKS blocks. */
  method Filewrite(v: Volume, f: File, src: seq<byte>, ghost others: set<nat>)
    returns (r: Outcome, ghost trail: seq<Chunk>)
    requires Ready(v, f.ip, others) && f.off < TWO32 && |src| < TWO32
    modifies v, f.ip, f`off
    ensures !r.Panic? ==>
              && Ready(v, f.ip, others) && SameOn(others, old(v.disk), v.disk) && f.off >= old(f.off)
              && Holds(Contents(f.ip.addrs, v.disk, f.ip.size), old(Contents(f.ip.addrs, v.disk, f.ip.size)),
                       old(f.off), src, f.off - old(f.off))
    ensures r.Done? ==> r.n == |src| && f.off == old(f.off) + |src|
    ensures r.Panic? ==> v.Full()
    ensures r.Failed? ==> Refused(f.ip.size, f.off, Next(|src|, f.off - old(f.off)))
    ensures Trail(v, old(v.Now()), trail, f.ip.inum, others, old(f.off), src)
    ensures !r.Panic? ==> v.Now() == Before(old(v.Now()), trail, |trail|) && f.off == old(f.off) + Upto(trail, |trail|)
  {
    hide Ready, Holds, Contents, SameOn, Trail, LoggedAll;
    trail := [];
    ReadyHas(v, f.ip, others);
    NoTrail(v, v.Now(), f.ip.inum, others, f.off, src);
    ghost var file := Contents(f.ip.addrs, v.disk, f.ip.size);
    HoldsNothing(file, f.off, src);
    SameOnSelf(others, v.disk);
    ghost var file0, off0 := file, f.off;
    var i, n := 0, |src|;
    while i < n
      invariant 0 <= i <= n && f.off == off0 + i < TWO32
      invariant Ready(v, f.ip, others) && SameOn(others, old(v.disk), v.disk)
      invariant file == Contents(f.ip.addrs, v.disk, f.ip.size) && Holds(file, file0, off0, src, i)
      invariant Trail(v, old(v.Now()), trail, f.ip.inum, others, off0, src)
      invariant v.Now() == Before(old(v.Now()), trail, |trail|) && i == Upto(trail, |trail|)
    {
      var n1 := Next(n, i);
      ghost var file1, disk1, image1 := file, v.disk, v.Now();
      ReadyHas(v, f.ip, others);
      var w := WriteTransaction(v, f.ip, src[i..i + n1], f.off, others);
      if w.Panic? { return Panic, trail; }
      file := Contents(f.ip.addrs, v.disk, f.ip.size);
      if w.Failed? { return Failed, trail; }
      SameOnTwice(others, old(v.disk), disk1, v.disk);
      HoldsMore(file1, file, file0, off0, src, i, n1);
      MoreTrail(v, f.ip, old(v.Now()), image1, trail, others, off0, src, i + n1);
      trail := trail + [Chunk(v.Now(), v.logged, i + n1)];
      f.off := f.off + n1;
      i := i + n1;
    }
    return Done(n), trail;
  }

  lemma ReadyHas(v: Volume, ip: Inode, others: set<nat>)
    requires Ready(v, ip, others)
    ensures ip.inum < |v.inodes| && v.inodes[ip.inum] == Dinode(ip.size, ip.addrs)
    ensures Contents(ip.addrs, v.disk, ip.size) == ImageFile(v.Now(), ip.inum)
  {
  }

  lemma NoTrail(v: Volume, start: Image, inum: nat, others: set<nat>, off: nat, src: seq<byte>)
    requires inum < |start.inodes|
    ensures Trail(v, start, [], inum, others, off, src)
  {
  }

  lemma MoreTrail(v: Volume, ip: Inode, start: Image, image: Image, trail: seq<Chunk>, others: set<nat>, off: nat,
                  src: seq<byte>, upto: nat)
    requires Trail(v, start, trail, ip.inum, others, off, src) && image == Before(start, trail, |trail|)
    requires LoggedAll(v.bmapstart, v.inodestart, image, v.Now(), v.logged) && |v.logged| <= MAXOPBLOCKS
    requires Ready(v, ip, others) && ip.inum < |image.inodes|
    requires v.inodes == image.inodes[ip.inum := Dinode(ip.size, ip.addrs)]
    requires Holds(Contents(ip.addrs, v.disk, ip.size), ImageFile(start, ip.inum), off, src, upto)
    ensures Trail(v, start, trail + [Chunk(v.Now(), v.logged, upto)], ip.inum, others, off, src)
  {
    var more := trail + [Chunk(v.Now(), v.logged, upto)];
    OnlyEntry(v, start, trail, ip.inum, others, off, src);
    hide LoggedAll, Holds, NoHoles, WellMapped, Own;
    forall k: nat | k < |more| ensures TrailAt(v, start, more, k, ip.inum, others, off, src) {
      if k < |trail| {
        assert TrailAt(v, start, trail, k, ip.inum, others, off, src);
        assert Before(start, more, k) == Before(start, trail, k);
      } else {
        assert Before(start, more, k) == image;
      }
    }
  }

  lemma OnlyEntry(v: Volume, start: Image, trail: seq<Chunk>, inum: nat, others: set<nat>, off: nat, src: seq<byte>)
    requires Trail(v, start, trail, inum, others, off, src)
    ensures var s := Before(start, trail, |trail|);
            inum < |start.inodes| == |s.inodes| && s.inodes == start.inodes[inum := s.inodes[inum]]
  {
    if trail != [] {
      assert TrailAt(v, start, trail, |trail| - 1, inum, others, off, src);
    }
  }

  /** One chunk between begin_op and end_op. */
  method WriteTransaction(v: Volume, ip: Inode, chunk: seq<byte>, off: nat, ghost others: set<nat>) returns (w: Outcome)
    requires Ready(v, ip, others) && off < TWO32 && |chunk| <= CHUNK
    modifies v, ip
    ensures !w.Panic? ==> Ready(v, ip, others) && SameOn(others, old(v.disk), v.disk) && |v.logged| <= MAXOPBLOCKS
    ensures LoggedAll(v.bmapstart, v.inodestart, old(v.Now()), v.Now(), v.logged)
    ensures w.Panic? ==> v.Full()
    ensures w.Failed? <==> Refused(old(ip.size), off, |chunk|)
    ensures w.Failed? ==> v.Now() == old(v.Now()) && ip.addrs == old(ip.addrs) && ip.size == old(ip.size)
    ensures w.Done? ==> v.inodes == old(v.inodes)[ip.inum := Dinode(ip.size, ip.addrs)]
    ensures w.Done? ==>
              && off <= old(|Contents(ip.addrs, v.disk, ip.size)|) && off + |chunk| < TWO32
              && Contents(ip.addrs, v.disk, ip.size)
                 == Replaced(old(Contents(ip.addrs, v.disk, ip.size)), off, chunk)
  {
    v.logged := {};
    ghost var size, a0, d0, used0 := ip.size, ip.addrs, v.disk, v.Used();
    hide Logging, NoHoles, Own, WellMapped, Contents, Needed, Past, Bitmap.Used, LoggedAll;
    SizeFits(a0, d0, size);
    ghost var got;
    w, got := v.Writei(ip, chunk, off, others);
    if w.Done? {
      TransactionFits(v.bmapstart, a0, d0, used0, if ip.size > size then {IBlock(v.inodestart, ip.inum)} else {}, size,
                      off, |chunk|, ip.addrs, v.disk, v.Used(), v.logged, got);
    }
  }
}
