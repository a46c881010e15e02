/** Files as byte sequences: what writing into mapped blocks does to the contents. */
module FsBytes {
  import opened Params
  import opened FsSpec
  import opened FsMap

  /** Block `old` with `chunk` copied in at offset o. */
  function Splice(block: Block, o: nat, chunk: seq<byte>): Block
    requires o + |chunk| <= BSIZE
  {
    block[..o] + chunk + block[o + |chunk|..]
  }

  /** After bmap and one block write, a mapped byte is the new block's if it lies there, else untouched. */
  lemma ByteStep(a: Addrs, d: Disk, a': Addrs, d1: Disk, bn: nat, b: nat, got: seq<nat>, others: set<nat>,
                 block: Block, pos: nat)
    requires bn < MAXFILE && pos < MAXFILE * BSIZE
    requires WellMapped(a, d) && WellMapped(a', d1) && Mapped(a, d, a', d1, bn, b, got, others)
    requires pos / BSIZE == bn || Slot(a, d, DataSlot(pos / BSIZE)) != 0
    ensures ByteAt(a', d1[b := block], pos) == if pos / BSIZE == bn then block[pos % BSIZE] else ByteAt(a, d, pos)
    ensures Slot(a', d1[b := block], DataSlot(pos / BSIZE)) == Slot(a', d1, DataSlot(pos / BSIZE))
  {
    var d': Disk := d1[b := block];
    var t := DataSlot(pos / BSIZE);
    assert b != a'[NDIRECT] by { assert Slot(a', d1, NDIRECT) == a'[NDIRECT]; }
    SlotFrame(a', d1, b, block, t);
    if pos / BSIZE != bn {
      assert t != DataSlot(bn) && t != NDIRECT;
      var c := Slot(a, d, t);
      assert Slot(a', d1, t) == c;
      assert c in Own(a, d);
      assert c != b && c != a'[NDIRECT] by { assert Slot(a', d1, NDIRECT) == a'[NDIRECT]; }
    }
  }

  /** The file after `tot` bytes of src have gone to offset off: [off, off + tot) is src, the rest as before. */
  ghost predicate Written(a0: Addrs, d0: Disk, size: nat, off: nat, src: seq<byte>, tot: nat, a: Addrs, d: Disk) {
    && tot <= |src| && off <= size <= MAXFILE * BSIZE && off + tot <= MAXFILE * BSIZE
    && NoHoles(a, d, Max(size, off + tot))
    && forall pos: nat :: pos < Max(size, off + tot) ==>
         ByteAt(a, d, pos) == if off <= pos < off + tot then src[pos - off] else ByteAt(a0, d0, pos)
  }

  function Max(x: nat, y: nat): nat {
    if x < y then y else x
  }

  lemma WrittenStep(a0: Addrs, d0: Disk, size: nat, off: nat, src: seq<byte>, tot: nat,
                    a: Addrs, d: Disk, a': Addrs, d1: Disk, b: nat, got: seq<nat>, others: set<nat>, m: nat)
    requires Written(a0, d0, size, off, src, tot, a, d) && tot < |src| && (off + tot) / BSIZE < MAXFILE
    requires m == Min(|src| - tot, BSIZE - (off + tot) % BSIZE)
    requires WellMapped(a, d) && WellMapped(a', d1)
    requires Mapped(a, d, a', d1, (off + tot) / BSIZE, b, got, others)
    ensures var o := (off + tot) % BSIZE;
            && o + m <= BSIZE
            && Written(a0, d0, size, off, src, tot + m, a',
                       d1[b := Splice(d1[b], o, src[tot..tot + m])])
  {
    var bn, o := (off + tot) / BSIZE, (off + tot) % BSIZE;
    var block := Splice(d1[b], o, src[tot..tot + m]);
    var d': Disk := d1[b := block];
    var hi, hi' := Max(size, off + tot), Max(size, off + tot + m);
    forall k: nat | k < BlocksFor(hi') ensures Slot(a', d', DataSlot(k)) != 0 {
      assert k * BSIZE < MAXFILE * BSIZE && (k * BSIZE) / BSIZE == k;
      ByteStep(a, d, a', d1, bn, b, got, others, block, k * BSIZE);
    }
    forall pos: nat | pos < hi'
      ensures ByteAt(a', d', pos) == if off <= pos < off + tot + m then src[pos - off] else ByteAt(a0, d0, pos)
    {
      WrittenAt(a0, d0, size, off, src, tot, a, d, a', d1, b, got, others, m, pos);
    }
  }

  function Min(x: nat, y: nat): nat {
    if x < y then x else y
  }

  lemma WrittenAt(a0: Addrs, d0: Disk, size: nat, off: nat, src: seq<byte>, tot: nat,
                  a: Addrs, d: Disk, a': Addrs, d1: Disk, b: nat, got: seq<nat>, others: set<nat>, m: nat, pos: nat)
    requires Written(a0, d0, size, off, src, tot, a, d) && tot < |src| && (off + tot) / BSIZE < MAXFILE
    requires m == Min(|src| - tot, BSIZE - (off + tot) % BSIZE)
    requires WellMapped(a, d) && WellMapped(a', d1)
    requires Mapped(a, d, a', d1, (off + tot) / BSIZE, b, got, others)
    requires pos < Max(size, off + tot + m)
    ensures ByteAt(a', d1[b := Splice(d1[b], (off + tot) % BSIZE, src[tot..tot + m])], pos)
            == if off <= pos < off + tot + m then src[pos - off] else ByteAt(a0, d0, pos)
  {
    var bn, o := (off + tot) / BSIZE, (off + tot) % BSIZE;
    var block := Splice(d1[b], o, src[tot..tot + m]);
    ByteStep(a, d, a', d1, bn, b, got, others, block, pos);
    if pos / BSIZE == bn {
      if o <= pos % BSIZE < o + m {
        assert block[pos % BSIZE] == src[tot..tot + m][pos % BSIZE - o];
      } else {
        assert block[pos % BSIZE] == d1[b][pos % BSIZE];
        assert pos < Max(size, off + tot);
        assert Slot(a, d, DataSlot(bn)) != 0;
        assert ByteAt(a, d, pos) == d[b][pos % BSIZE];
        assert !(off + tot <= pos < off + tot + m);
      }
    }
  }

  lemma ReadChunk(a: Addrs, d: Disk, size: nat, o: nat, m: nat, b: nat)
    requires size <= MAXFILE * BSIZE && m >= 1 && o + m <= size && o % BSIZE + m <= BSIZE
    requires b == Slot(a, d, DataSlot(o / BSIZE)) && b < |d|
    ensures d[b][o % BSIZE..o % BSIZE + m] == Contents(a, d, size)[o..o + m]
  {
  }

  /** `file` with the bytes from off on replaced by src, extended if src reaches past the end. */
  function Replaced(file: seq<byte>, off: nat, src: seq<byte>): seq<byte>
    requires off <= |file|
  {
    if off + |src| >= |file| then file[..off] + src else file[..off] + src + file[off + |src|..]
  }

  lemma WrittenNothing(a: Addrs, d: Disk, size: nat, off: nat, src: seq<byte>)
    requires NoHoles(a, d, size) && off <= size
    ensures Written(a, d, size, off, src, 0, a, d)
  {
  }

  lemma WrittenContents(a0: Addrs, d0: Disk, size: nat, off: nat, src: seq<byte>, a: Addrs, d: Disk)
    requires Written(a0, d0, size, off, src, |src|, a, d)
    ensures Contents(a, d, Max(size, off + |src|)) == Replaced(Contents(a0, d0, size), off, src)
  {
    hide NoHoles, ByteAt, Replaced;
    var file := Contents(a0, d0, size);
    var x, y := Contents(a, d, Max(size, off + |src|)), Replaced(file, off, src);
    ReplacedLength(file, off, src);
    forall pos: nat | pos < |x| ensures x[pos] == y[pos] {
      ReplacedAt(file, off, src, pos);
      assert pos < size ==> file[pos] == ByteAt(a0, d0, pos);
    }
  }

  lemma ReplacedLength(file: seq<byte>, off: nat, src: seq<byte>)
    requires off <= |file|
    ensures |Replaced(file, off, src)| == Max(|file|, off + |src|)
  {
  }

  lemma ReplacedAt(file: seq<byte>, off: nat, src: seq<byte>, pos: nat)
    requires off <= |file| && pos < |Replaced(file, off, src)|
    ensures off <= pos < off + |src| || pos < |file|
    ensures Replaced(file, off, src)[pos] == if off <= pos < off + |src| then src[pos - off] else file[pos]
  {
  }

  /** Writing a data block of the file changes no slot. */
  lemma DataWriteOwns(a: Addrs, d: Disk, bn: nat, b: nat, block: Block)
    requires WellMapped(a, d) && bn < MAXFILE && 0 != b < |d| && b == Slot(a, d, DataSlot(bn))
    ensures WellMapped(a, d[b := block]) && Own(a, d[b := block]) == Own(a, d)
  {
    assert Slot(a, d, NDIRECT) != b;
    OwnFrame(a, d, b, block);
  }

  /** After bmap, writing the data block touches nobody else's. */
  lemma ChunkOwns(a: Addrs, d: Disk, a': Addrs, d1: Disk, bn: nat, b: nat, got: seq<nat>, others: set<nat>,
                  block: Block)
    requires bn < MAXFILE && WellMapped(a', d1) && others !! Own(a', d1) && Mapped(a, d, a', d1, bn, b, got, others)
    ensures b < |d1| && WellMapped(a', d1[b := block]) && Own(a', d1[b := block]) == Own(a', d1)
    ensures SameOn(others, d, d1[b := block])
  {
    DataWriteOwns(a', d1, bn, b, block);
    MappedElsewhere(a, d, a', d1, bn, b, got, others);
  }

  // ---- How many blocks a write logs -------------------------------------------------------

  /** File blocks touched by n bytes at off. */
  function Span(off: nat, n: nat): nat {
    if n == 0 then 0 else (off + n - 1) / BSIZE - off / BSIZE + 1
  }

  /** The file block after the last one touched. */
  function Past(off: nat, n: nat): nat { off / BSIZE + Span(off, n) }

  lemma PastInFile(off: nat, n: nat)
    requires off + n <= MAXFILE * BSIZE
    ensures off / BSIZE <= Past(off, n) <= MAXFILE && Past(off, 0) == off / BSIZE
  {
  }

  /** One more chunk touches one more block. */
  lemma PastNext(off: nat, tot: nat, m: nat, n: nat)
    requires m >= 1 && tot + m <= n && (off + tot) % BSIZE + m <= BSIZE && (tot > 0 ==> (off + tot) % BSIZE == 0)
    ensures Past(off, tot) == (off + tot) / BSIZE && Past(off, tot + m) == Past(off, tot) + 1 <= Past(off, n)
  {
  }

  lemma WrittenNoHoles(a0: Addrs, d0: Disk, size: nat, off: nat, src: seq<byte>, tot: nat, a: Addrs, d: Disk)
    requires Written(a0, d0, size, off, src, tot, a, d)
    ensures NoHoles(a, d, Max(size, off + tot)) && NoHoles(a, d, size)
  {
  }

  /** A chunk that ends inside the file finds its block mapped. */
  lemma InsideUnchanged(a: Addrs, d: Disk, a': Addrs, d1: Disk, size: nat, o: nat, m: nat, b: nat, got: seq<nat>,
                        others: set<nat>)
    requires NoHoles(a, d, size) && m >= 1 && o + m <= size
    requires Mapped(a, d, a', d1, o / BSIZE, b, got, others)
    ensures a' == a && got == []
  {
  }

  /** writei after `tot` bytes: the contents, and no new address inside the file. */
  ghost predicate Writing(a0: Addrs, d0: Disk, size: nat, off: nat, src: seq<byte>, tot: nat, a: Addrs, d: Disk) {
    Written(a0, d0, size, off, src, tot, a, d) && (off + tot <= size ==> a == a0)
  }

  lemma WritingNothing(a: Addrs, d: Disk, size: nat, off: nat, src: seq<byte>)
    requires off <= size
    ensures NoHoles(a, d, size) ==> Writing(a, d, size, off, src, 0, a, d)
  {
  }

  lemma WritingStep(a0: Addrs, d0: Disk, size: nat, off: nat, src: seq<byte>, tot: nat, a: Addrs, d: Disk, m: nat,
                    a': Addrs, d1: Disk, b: nat, got: seq<nat>, others: set<nat>)
    requires Writing(a0, d0, size, off, src, tot, a, d)
    requires tot < |src| && off + |src| <= MAXFILE * BSIZE && m == Min(|src| - tot, BSIZE - (off + tot) % BSIZE)
    requires WellMapped(a, d) && WellMapped(a', d1) && Mapped(a, d, a', d1, (off + tot) / BSIZE, b, got, others)
    ensures (off + tot) % BSIZE + m <= BSIZE
    ensures Writing(a0, d0, size, off, src, tot + m, a', d1[b := Splice(d1[b], (off + tot) % BSIZE, src[tot..tot + m])])
  {
    hide Written, Mapped, NoHoles, Slot;
    var o := off + tot;
    MappedInDisk(a, d, a', d1, o / BSIZE, b, got, others);
    WrittenStep(a0, d0, size, off, src, tot, a, d, a', d1, b, got, others, m);
    WrittenNoHoles(a0, d0, size, off, src, tot, a, d);
    if o + m <= size { InsideUnchanged(a, d, a', d1, size, o, m, b, got, others); }
  }

  lemma WritingDone(a0: Addrs, d0: Disk, size: nat, off: nat, src: seq<byte>, a: Addrs, d: Disk)
    ensures Writing(a0, d0, size, off, src, |src|, a, d) ==>
              Written(a0, d0, size, off, src, |src|, a, d) && (off + |src| <= size ==> a == a0)
  {
  }

  lemma MappedInDisk(a: Addrs, d: Disk, a': Addrs, d1: Disk, bn: nat, b: nat, got: seq<nat>, others: set<nat>)
    requires bn < MAXFILE && Mapped(a, d, a', d1, bn, b, got, others)
    ensures b < |d1|
  {
  }
}
