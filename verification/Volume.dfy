/**
  fs.c's block allocator and inode contents, as methods on a mounted volume.
  The buffer cache and the log appear only as the set of blocks the current operation
  has passed to log_write.
 */
module Volume {
  import opened Params
  import opened Wrappers
  import opened FsSpec
  import opened FsMap
  import opened FsBytes
  import opened FsLog
  import opened FsImage
  import Bitmap

  /** A file operation returns a count, or -1, or the kernel panics. */
  datatype Outcome = Panic | Failed | Done(n: nat)

  /** The in-memory copy of an inode. */
  class Inode {
    const inum: nat
    var size: nat
    var addrs: Addrs

    constructor (inum: nat, size: nat, addrs: Addrs)
      ensures this.inum == inum && this.size == size && this.addrs == addrs
    {
      this.inum, this.size, this.addrs := inum, size, addrs;
    }
  }

  class Volume {
    const size: nat                  // sb.size
    const bmapstart: nat
    const inodestart: nat
    var bitmap: seq<Bitmap.Bytes>
    var disk: Disk
    var inodes: seq<Dinode>
    ghost var logged: set<nat>

    constructor (size: nat, bmapstart: nat, inodestart: nat, bitmap: seq<Bitmap.Bytes>, disk: Disk, inodes: seq<Dinode>)
      ensures this.size == size && this.bmapstart == bmapstart && this.inodestart == inodestart
      ensures this.bitmap == bitmap && this.disk == disk && this.inodes == inodes && logged == {}
    {
      this.size, this.bmapstart, this.inodestart := size, bmapstart, inodestart;
      this.bitmap, this.disk, this.inodes, logged := bitmap, disk, inodes, {};
    }

    ghost predicate Shape() reads this {
      size <= |bitmap| * Bitmap.BPB && |disk| == size && size < TWO32
    }

    ghost function Used(): set<nat>
      requires Shape()
      reads this
    {
      Bitmap.Used(bitmap, size)
    }

    ghost function Free(): set<nat>
      requires Shape()
      reads this
    {
      set b: nat | 0 <= b < size && b !in Used()
    }

    /** No block is free. */
    ghost predicate Full() reads this {
      Shape() && forall b: nat :: b < size ==> b in Used()
    }

    /** The blocks in use are those of `ip` and those of somebody else, with none in both;
        block 0 is never a file's. */
    ghost predicate Owns(ip: Inode, others: set<nat>)
      reads this, ip
    {
      && Shape() && WellMapped(ip.addrs, disk)
      && others !! Own(ip.addrs, disk) && 0 in others
      && Used() == others + Own(ip.addrs, disk)
    }

    /** Balloc was called for `got`, one after the other. */
    ghost predicate Took(used0: set<nat>, got: seq<nat>) reads this {
      Shape() && InOrder(used0, got) && Used() == used0 + Elems(got)
    }

    ghost function Now(): Image reads this { Image(bitmap, disk, inodes) }

    /** Every block changed since `before` has been passed to log_write. */
    ghost predicate Covers(before: Image) reads this { LoggedAll(bmapstart, inodestart, before, Now(), logged) }


    /** Mark the first free block in use and zero it; None is the panic for a full disk. */
    method Balloc() returns (r: Option<nat>)
      requires Shape()
      modifies this`bitmap, this`disk, this`logged
      ensures Covers(old(Now())) && old(logged) <= logged
      ensures Shape()
      ensures r.None? ==> disk == old(disk) && bitmap == old(bitmap) && logged == old(logged) && Full()
      ensures r.Some? ==>
                && r.value < size && FirstFree(old(Used()), r.value) && Used() == old(Used()) + {r.value}
                && disk == old(disk)[r.value := Zero()]
                && logged == old(logged) + {BBlock(bmapstart, r.value), r.value}
    {
      hide Bitmap.Used, Bitmap.TestBit, Bitmap.SetBit;
      ghost var u := Used();
      var b := 0;
      while b < size
        invariant b % Bitmap.BPB == 0 && bitmap == old(bitmap) && disk == old(disk) && logged == old(logged)
        invariant forall c: nat :: c < b && c < size ==> c in u
      {
        var bi := 0;
        while bi < Bitmap.BPB && b + bi < size
          invariant 0 <= bi <= Bitmap.BPB && bitmap == old(bitmap) && disk == old(disk) && logged == old(logged)
          invariant forall c: nat :: c < b + bi && c < size ==> c in u
        {
          ScannedBit(bitmap, size, b, bi);
          if !Bitmap.TestBit(bitmap[b / Bitmap.BPB], bi) {
            bitmap := bitmap[b / Bitmap.BPB := Bitmap.SetBit(bitmap[b / Bitmap.BPB], bi)];
            disk := disk[b + bi := Zero()];
            logged := logged + {BBlock(bmapstart, b + bi), b + bi};
            return Some(b + bi);
          }
          bi := bi + 1;
        }
        b := b + Bitmap.BPB;
      }
      return None;
    }

    /** Clear the bit of block b; true is the panic "freeing free block". */
    method Bfree(b: nat) returns (panicked: bool)
      requires Shape() && b < size
      modifies this`bitmap, this`logged
      ensures Shape()
      ensures panicked <==> b !in old(Used())
      ensures panicked ==> bitmap == old(bitmap) && logged == old(logged)
      ensures !panicked ==> Used() == old(Used()) - {b} && logged == old(logged) + {BBlock(bmapstart, b)}
    {
      var bi := b % Bitmap.BPB;
      assert b / Bitmap.BPB < |bitmap|;
      if !Bitmap.TestBit(bitmap[b / Bitmap.BPB], bi) {
        assert !Bitmap.Marked(bitmap, b);
        return true;
      }
      assert Bitmap.Marked(bitmap, b);
      Bitmap.UnmarkOne(bitmap, size, b);
      bitmap := bitmap[b / Bitmap.BPB := Bitmap.ClearBit(bitmap[b / Bitmap.BPB], bi)];
      logged := logged + {BBlock(bmapstart, b)};
      return false;
    }

    /** Allocate a block for an empty direct slot, or the indirect block itself. */
    method AllocSlot(ip: Inode, s: nat, ghost others: set<nat>) returns (r: Option<nat>)
      requires Owns(ip, others) && s <= NDIRECT && ip.addrs[s] == 0
      modifies this`bitmap, this`disk, this`logged, ip`addrs
      ensures Covers(old(Now())) && old(logged) <= logged
      ensures r.None? ==> Full() && bitmap == old(bitmap)
      ensures r.Some? ==>
                && Owns(ip, others) && ip.addrs == old(ip.addrs)[s := r.value]
                && FirstFree(old(Used()), r.value) && Used() == old(Used()) + {r.value}
                && Grew(old(ip.addrs), old(disk), ip.addrs, disk, s, r.value, others)
                && Own(ip.addrs, disk) == Own(old(ip.addrs), old(disk)) + {r.value}
                && logged == old(logged) + {BBlock(bmapstart, r.value), r.value}
    {
      var x := Balloc();
      if x.None? { return None; }
      GrowSlot(ip.addrs, old(disk), s, x.value, others);
      ip.addrs := ip.addrs[s := x.value];
      return x;
    }

    /** Allocate a block for an empty word of the indirect block. */
    method AllocEntry(ip: Inode, n: nat, ghost others: set<nat>) returns (r: Option<nat>)
      requires Owns(ip, others) && n < NINDIRECT && ip.addrs[NDIRECT] != 0
      requires Slot(ip.addrs, disk, NDIRECT + 1 + n) == 0
      modifies this`bitmap, this`disk, this`logged
      ensures Covers(old(Now())) && old(logged) <= logged
      ensures r.None? ==> Full() && bitmap == old(bitmap)
      ensures r.Some? ==>
                && Owns(ip, others)
                && FirstFree(old(Used()), r.value) && Used() == old(Used()) + {r.value}
                && Grew(ip.addrs, old(disk), ip.addrs, disk, NDIRECT + 1 + n, r.value, others)
                && logged == old(logged) + {BBlock(bmapstart, r.value), r.value} + {ip.addrs[NDIRECT]}
    {
      var addr := ip.addrs[NDIRECT];
      IndirectOwned(ip.addrs, disk);
      var y := Balloc();
      if y.None? { return None; }
      GrowEntry(ip.addrs, old(disk), n, y.value, others);
      disk := disk[addr := SetWord(disk[addr], n, y.value)];
      logged := logged + {addr};
      return y;
    }

    /** The address of file block bn, allocated if missing; None is a panic.
        `got` are the blocks allocated on the way, the indirect block first. */
    method Bmap(ip: Inode, bn: nat, ghost others: set<nat>) returns (r: Option<nat>, ghost got: seq<nat>)
      requires Owns(ip, others)
      modifies this`bitmap, this`disk, this`logged, ip`addrs
      ensures Covers(old(Now())) && old(logged) <= logged
      ensures bn >= MAXFILE ==> r.None?
      ensures bn < MAXFILE && r.None? ==> Full() && |got| < Need(old(ip.addrs), old(disk), bn)
      ensures Took(old(Used()), got)
      ensures bn < MAXFILE && Slot(old(ip.addrs), old(disk), DataSlot(bn)) != 0 ==> r.Some? && logged == old(logged)
      ensures r.Some? ==> bn < MAXFILE && Owns(ip, others)
      ensures r.Some? ==> Mapped(old(ip.addrs), old(disk), ip.addrs, disk, bn, r.value, got, others)
      ensures r.Some? ==> logged == old(logged) + MapLog(bmapstart, got, bn, ip.addrs)
      ensures r.Some? && got == [] ==> bitmap == old(bitmap)
    {
      got := [];
      TookNothing();
      if bn < NDIRECT {
        var addr := ip.addrs[bn];
        if addr == 0 {
          r := AllocSlot(ip, bn, others);
          if r.Some? {
            got := [r.value];
            MappedFresh(old(ip.addrs), old(disk), ip.addrs, disk, bn, r.value, others);
            MapLogOnce(bmapstart, r.value, bn, ip.addrs);
            OneInOrder(old(Used()), r.value);
          }
          return;
        }
        MappedAlready(ip.addrs, disk, bn, others);
        return Some(addr), got;
      }
      if bn - NDIRECT < NINDIRECT {
        r, got := BmapIndirect(ip, bn - NDIRECT, others);
        return;
      }
      return None, got;
    }

    /** bmap's second half: load the indirect block, allocating it and the entry if necessary. */
    method BmapIndirect(ip: Inode, n: nat, ghost others: set<nat>) returns (r: Option<nat>, ghost got: seq<nat>)
      requires Owns(ip, others) && n < NINDIRECT
      modifies this`bitmap, this`disk, this`logged, ip`addrs
      ensures Covers(old(Now())) && old(logged) <= logged
      ensures r.None? ==> Full() && |got| < Need(old(ip.addrs), old(disk), NDIRECT + n)
      ensures Took(old(Used()), got)
      ensures Slot(old(ip.addrs), old(disk), NDIRECT + 1 + n) != 0 ==> r.Some? && logged == old(logged)
      ensures r.Some? ==>
                && Owns(ip, others)
                && Mapped(old(ip.addrs), old(disk), ip.addrs, disk, NDIRECT + n, r.value, got, others)
                && logged == old(logged) + MapLog(bmapstart, got, NDIRECT + n, ip.addrs)
                && (got == [] ==> bitmap == old(bitmap))
    {
      hide Mapped, Grew, MapLog, InOrder, FirstFree, Elems, Own, WellMapped, Bitmap.Used, LoggedAll;
      TookNothing();
      if ip.addrs[NDIRECT] != 0 {
        r, got := BmapEntry(ip, n, others);
        return;
      }
      r := AllocSlot(ip, NDIRECT, others);
      if r.None? { return r, []; }
      ghost var x, a1, d1 := r.value, ip.addrs, disk;
      ghost var image, log := Now(), logged;
      OneInOrder(old(Used()), x);
      EmptyIndirect(old(ip.addrs), old(disk), a1, d1, n, x, others);
      r, got := BmapEntry(ip, n, others);
      InOrderMore(old(Used()), [x], got);
      LoggedTwice(bmapstart, inodestart, old(Now()), image, log, Now(), logged);
      if r.Some? {
        MappedTwice(old(ip.addrs), old(disk), a1, d1, disk, NDIRECT + n, x, r.value, others);
        MapLogTwice(bmapstart, x, r.value, NDIRECT + n, ip.addrs);
        assert [x] + got == [x, r.value];
      }
      got := [x] + got;
    }

    /** bmap's last step: the word in the indirect block. */
    method BmapEntry(ip: Inode, n: nat, ghost others: set<nat>) returns (r: Option<nat>, ghost got: seq<nat>)
      requires Owns(ip, others) && n < NINDIRECT && ip.addrs[NDIRECT] != 0
      modifies this`bitmap, this`disk, this`logged
      ensures Covers(old(Now())) && old(logged) <= logged
      ensures r.None? ==> Full() && got == []
      ensures Took(old(Used()), got)
      ensures Slot(ip.addrs, old(disk), NDIRECT + 1 + n) != 0 ==> r.Some? && logged == old(logged)
      ensures r.Some? ==>
                && Owns(ip, others)
                && Mapped(ip.addrs, old(disk), ip.addrs, disk, NDIRECT + n, r.value, got, others)
                && logged == old(logged) + MapLog(bmapstart, got, NDIRECT + n, ip.addrs)
                && got == (if Slot(ip.addrs, old(disk), NDIRECT + 1 + n) == 0 then [r.value] else [])
                && (got == [] ==> bitmap == old(bitmap))
    {
      hide Mapped, Grew, InOrder, FirstFree, Elems, Own, WellMapped, Bitmap.Used, MapLog, LoggedAll;
      TookNothing();
      LoggedNothing(bmapstart, inodestart, Now(), logged);
      IndirectInRange(ip.addrs, disk);
      var addr := Word(disk[ip.addrs[NDIRECT]], n);
      if addr != 0 {
        MappedAlready(ip.addrs, disk, NDIRECT + n, others);
        MapLogNone(bmapstart, NDIRECT + n, ip.addrs);
        return Some(addr), [];
      }
      ghost var d1 := disk;
      r := AllocEntry(ip, n, others);
      if r.None? { return r, []; }
      MappedFresh(ip.addrs, d1, ip.addrs, disk, NDIRECT + n, r.value, others);
      MapLogOnce(bmapstart, r.value, NDIRECT + n, ip.addrs);
      OneInOrder(old(Used()), r.value);
      return r, [r.value];
    }

    lemma TookMore(used0: set<nat>, used: set<nat>, got: seq<nat>, more: seq<nat>)
      requires InOrder(used0, got) && used == used0 + Elems(got) && Took(used, more)
      ensures Took(used0, got + more)
    {
      InOrderMore(used0, got, more);
    }

    /** As many blocks were free as were taken, at least; no more than that if none is left. */
    lemma TookFree(used0: set<nat>, free0: set<nat>, got: seq<nat>)
      requires Took(used0, got) && free0 == set b: nat | 0 <= b < size && b !in used0
      ensures |got| <= |free0| && (Full() ==> |got| == |free0|)
    {
      hide InOrder, Bitmap.TestBit;
      InOrderDistinct(used0, got);
      forall x | x in Elems(got) ensures x in free0 {
        assert x in Used();
      }
      Subset(Elems(got), free0);
      if Full() {
        Subset(free0, Elems(got));
      }
    }

    lemma TookNothing()
      requires Shape()
      ensures Took(Used(), [])
    {
      assert Elems([]) == {};
    }

    /** Copy the in-memory inode into its block of IPB table entries; the others in the block stay. */
    method Iupdate(ip: Inode)
      requires ip.inum < |inodes|
      modifies this`inodes, this`logged
      ensures Covers(old(Now())) && old(logged) <= logged
      ensures inodes == old(inodes)[ip.inum := Dinode(ip.size, ip.addrs)]
      ensures logged == old(logged) + {IBlock(inodestart, ip.inum)}
      ensures forall i :: 0 <= i < |inodes| && IBlock(inodestart, i) != IBlock(inodestart, ip.inum) ==>
                inodes[i] == old(inodes)[i]
    {
      var first := ip.inum / IPB * IPB;
      var end := Min(first + IPB, |inodes|);
      var block := inodes[first..end];
      block := block[ip.inum % IPB := Dinode(ip.size, ip.addrs)];
      inodes := inodes[..first] + block + inodes[end..];
      logged := logged + {IBlock(inodestart, ip.inum)};
    }

    /** Read up to n bytes at off.  Nothing on the volume or in the inode changes: with no holes
        bmap never has to allocate. */
    method Readi(ip: Inode, off: nat, n: nat, ghost others: set<nat>) returns (r: Outcome, dst: seq<byte>)
      requires Owns(ip, others) && NoHoles(ip.addrs, disk, ip.size) && off < TWO32 && n < TWO32
      modifies this`bitmap, this`disk, this`logged, ip`addrs
      ensures disk == old(disk) && bitmap == old(bitmap) && logged == old(logged) && ip.addrs == old(ip.addrs)
      ensures r.Failed? <==> off > ip.size || (off + n) % TWO32 < off
      ensures !r.Failed? ==>
                && r == Done(|dst|) && off <= ip.size
                && dst == Contents(ip.addrs, disk, ip.size)[off..off + Min(n, ip.size - off)]
    {
      hide NoHoles, Own, WellMapped, ByteAt;
      dst := [];
      if off > ip.size || (off + n) % TWO32 < off { return Failed, dst; }
      ghost var file := Contents(ip.addrs, disk, ip.size);
      var count := if off + n > ip.size then ip.size - off else n;
      var tot, o := 0, off;
      while tot < count
        invariant 0 <= tot <= count && o == off + tot && dst == file[off..off + tot]
        invariant disk == old(disk) && bitmap == old(bitmap) && logged == old(logged) && ip.addrs == old(ip.addrs)
      {
        var m := Min(count - tot, BSIZE - o % BSIZE);
        var chunk := ReadNext(ip, o, m, others);
        assert file[off..off + tot + m] == file[off..off + tot] + file[o..o + m];
        dst := dst + chunk;
        tot, o := tot + m, o + m;
      }
      return Done(count), dst;
    }

    /** One turn of readi's loop: m bytes inside one block. */
    method ReadNext(ip: Inode, o: nat, m: nat, ghost others: set<nat>) returns (chunk: seq<byte>)
      requires Owns(ip, others) && NoHoles(ip.addrs, disk, ip.size)
      requires m >= 1 && o + m <= ip.size && o % BSIZE + m <= BSIZE
      modifies this`bitmap, this`disk, this`logged, ip`addrs
      ensures disk == old(disk) && bitmap == old(bitmap) && logged == old(logged) && ip.addrs == old(ip.addrs)
      ensures chunk == Contents(ip.addrs, disk, ip.size)[o..o + m]
    {
      var b, got := Bmap(ip, o / BSIZE, others);
      assert b.Some? && got == [];
      chunk := disk[b.value][o % BSIZE..o % BSIZE + m];
      ReadChunk(ip.addrs, disk, ip.size, o, m, b.value);
    }

    /**
      Write src at off.  If the file has no holes it becomes the old one with [off, off + |src|) replaced,
      and the on-disk inode equals the in-memory one again although iupdate runs only when the size grew.
      With or without holes the blocks allocated and logged are exactly these, and the panic comes exactly
      when too few blocks are free.
     */
    method Writei(ip: Inode, src: seq<byte>, off: nat, ghost others: set<nat>) returns (r: Outcome, ghost got: seq<nat>)
      requires Owns(ip, others) && ip.size <= MAXFILE * BSIZE && off < TWO32 && |src| < TWO32 && ip.inum < |inodes|
      modifies this`bitmap, this`disk, this`logged, this`inodes, ip`addrs, ip`size
      ensures Covers(old(Now())) && old(logged) <= logged
      ensures r.Failed? <==>
                off > old(ip.size) || (off + |src|) % TWO32 < off || (off + |src|) % TWO32 > MAXFILE * BSIZE
      ensures r.Failed? ==> disk == old(disk) && bitmap == old(bitmap) && inodes == old(inodes)
                            && ip.addrs == old(ip.addrs) && ip.size == old(ip.size) && logged == old(logged)
      ensures r.Done? ==>
                && r == Done(|src|) && off <= old(ip.size) && off + |src| <= MAXFILE * BSIZE
                && Owns(ip, others) && SameOn(others, old(disk), disk) && ip.size == Max(old(ip.size), off + |src|)
      ensures r.Done? && old(NoHoles(ip.addrs, disk, ip.size)) ==>
                && NoHoles(ip.addrs, disk, ip.size)
                && Contents(ip.addrs, disk, ip.size) == Replaced(old(Contents(ip.addrs, disk, ip.size)), off, src)
                && (old(inodes)[ip.inum] == Dinode(old(ip.size), old(ip.addrs)) ==>
                      inodes == old(inodes)[ip.inum := Dinode(ip.size, ip.addrs)])
      ensures !r.Failed? ==> off / BSIZE <= Past(off, |src|) <= MAXFILE && Took(old(Used()), got)
      ensures r.Done? ==>
                Logging(bmapstart, old(ip.addrs), old(disk), old(Used()),
                        old(logged) + (if ip.size > old(ip.size) then {IBlock(inodestart, ip.inum)} else {}),
                        off / BSIZE, Past(off, |src|), ip.addrs, disk, Used(), logged, got)
      ensures r.Panic? ==> Full()
      ensures !r.Failed? ==>
                (r.Panic? <==> |old(Free())| < Needed(old(ip.addrs), old(disk), off / BSIZE, Past(off, |src|)))
    {
      hide LoggedAll, Written, Contents, NoHoles, Logging, Needed, InOrder, Elems, Own, WellMapped, Bitmap.Used, Past,
           SameOn, Replaced;
      LoggedNothing(bmapstart, inodestart, Now(), logged);
      got := [];
      var n := |src|;
      if off > ip.size || (off + n) % TWO32 < off { return Failed, got; }
      if (off + n) % TWO32 > MAXFILE * BSIZE { return Failed, got; }
      assert off + n < TWO32;
      ghost var size0, a0, d0 := ip.size, ip.addrs, disk;
      var ok;
      ok, got := WriteLoop(ip, src, off, others);
      TookFree(old(Used()), old(Free()), got);
      if !ok { return Panic, got; }
      LoggingTook(bmapstart, a0, d0, old(Used()), old(logged), off / BSIZE, Past(off, n), ip.addrs, disk, Used(),
                  logged, got);
      if NoHoles(a0, d0, size0) {
        WrittenContents(a0, d0, size0, off, src, ip.addrs, disk);
        WrittenNoHoles(a0, d0, size0, off, src, n, ip.addrs, disk);
      }
      LoggingWith(bmapstart, a0, d0, old(Used()), old(logged), off / BSIZE, Past(off, n), ip.addrs, disk, Used(),
                  logged, got,
                  if off + n > size0 then {IBlock(inodestart, ip.inum)} else {});
      assert logged + {} == logged;
      if n > 0 && off + n > ip.size {
        ip.size := off + n;
        ghost var image, log := Now(), logged;
        Iupdate(ip);
        LoggedTwice(bmapstart, inodestart, old(Now()), image, log, Now(), logged);
      }
      return Done(n), got;
    }

    /** writei's loop, block by block. */
    method WriteLoop(ip: Inode, src: seq<byte>, off: nat, ghost others: set<nat>)
      returns (ok: bool, ghost got: seq<nat>)
      requires Owns(ip, others) && off <= ip.size && off + |src| <= MAXFILE * BSIZE
      modifies this`bitmap, this`disk, this`logged, ip`addrs
      ensures Covers(old(Now())) && old(logged) <= logged
      ensures ok ==> Owns(ip, others) && SameOn(others, old(disk), disk)
      ensures ok && NoHoles(old(ip.addrs), old(disk), ip.size) ==>
                && Written(old(ip.addrs), old(disk), ip.size, off, src, |src|, ip.addrs, disk)
                && (off + |src| <= ip.size ==> ip.addrs == old(ip.addrs))
      ensures off / BSIZE <= Past(off, |src|) <= MAXFILE && Took(old(Used()), got)
      ensures ok ==>
                Logging(bmapstart, old(ip.addrs), old(disk), old(Used()), old(logged), off / BSIZE, Past(off, |src|),
                        ip.addrs, disk, Used(), logged, got)
      ensures !ok ==> Full() && |got| < Needed(old(ip.addrs), old(disk), off / BSIZE, Past(off, |src|))
    {
      hide LoggedAll, Writing, Written, Own, MapLog, Mapped, Logging, InOrder, Need, Needed, WellMapped, Elems,
           NoHoles, Bitmap.Used, Past;
      ghost var first, solid := off / BSIZE, NoHoles(ip.addrs, disk, ip.size);
      PastInFile(off, |src|);
      WritingNothing(ip.addrs, disk, ip.size, off, src);
      LoggingNothing(bmapstart, ip.addrs, disk, Used(), logged, first);
      TookNothing();
      LoggedNothing(bmapstart, inodestart, Now(), logged);
      got := [];
      var n, tot := |src|, 0;
      while tot < n
        invariant 0 <= tot <= n && Owns(ip, others) && SameOn(others, old(disk), disk)
        invariant 0 < tot < n ==> (off + tot) % BSIZE == 0
        invariant solid ==> Writing(old(ip.addrs), old(disk), ip.size, off, src, tot, ip.addrs, disk)
        invariant Took(old(Used()), got) && Covers(old(Now())) && old(logged) <= logged
        invariant Logging(bmapstart, old(ip.addrs), old(disk), old(Used()), old(logged), first, Past(off, tot),
                          ip.addrs, disk, Used(), logged, got)
      {
        ghost var a, d, log, used, image := ip.addrs, disk, logged, Used(), Now();
        var m := Min(n - tot, BSIZE - (off + tot) % BSIZE);
        ghost var b, more, d1;
        PastNext(off, tot, m, n);
        ok, b, more, d1 := WriteChunk(ip, src[tot..tot + m], off + tot, others);
        TookMore(old(Used()), used, got, more);
        LoggedTwice(bmapstart, inodestart, old(Now()), image, log, Now(), logged);
        if !ok {
          TooFew(bmapstart, old(ip.addrs), old(disk), old(Used()), old(logged), first, (off + tot) / BSIZE, a, d, used,
                 log, got,
                 more, Past(off, n));
          return false, got + more;
        }
        LoggingStep(bmapstart, old(ip.addrs), old(disk), old(Used()), old(logged), first, (off + tot) / BSIZE, a, d,
                    used, log, got,
                    ip.addrs, d1, b, more, others, Splice(d1[b], (off + tot) % BSIZE, src[tot..tot + m]));
        if solid {
          WritingStep(old(ip.addrs), old(disk), ip.size, off, src, tot, a, d, m, ip.addrs, d1, b, more, others);
        }
        got := got + more;
        tot := tot + m;
      }
      WritingDone(old(ip.addrs), old(disk), ip.size, off, src, ip.addrs, disk);
      return true, got;
    }

    /** One pass of writei's loop: the part of src that falls in one block. */
    method WriteChunk(ip: Inode, chunk: seq<byte>, o: nat, ghost others: set<nat>)
      returns (ok: bool, ghost b: nat, ghost got: seq<nat>, ghost d1: Disk)
      requires Owns(ip, others) && o % BSIZE + |chunk| <= BSIZE && o < MAXFILE * BSIZE
      modifies this`bitmap, this`disk, this`logged, ip`addrs
      ensures Covers(old(Now())) && old(logged) <= logged
      ensures Took(old(Used()), got)
      ensures !ok ==> Full() && |got| < Need(old(ip.addrs), old(disk), o / BSIZE)
      ensures ok ==>
                && Owns(ip, others) && WellMapped(ip.addrs, d1)
                && Mapped(old(ip.addrs), old(disk), ip.addrs, d1, o / BSIZE, b, got, others)
                && b < |d1| && disk == d1[b := Splice(d1[b], o % BSIZE, chunk)]
                && SameOn(others, old(disk), disk)
                && logged == old(logged) + MapLog(bmapstart, got, o / BSIZE, ip.addrs) + {b}
    {
      hide InOrder, MapLog, Need, Bitmap.Used, Elems, Mapped, Own, WellMapped, SameOn;
      var x;
      x, got := Bmap(ip, o / BSIZE, others);
      b, d1 := 0, disk;
      if x.None? { return false, b, got, d1; }
      b := x.value;
      MappedInDisk(old(ip.addrs), old(disk), ip.addrs, disk, o / BSIZE, x.value, got, others);
      ChunkOwns(old(ip.addrs), old(disk), ip.addrs, disk, o / BSIZE, x.value, got, others,
                Splice(disk[x.value], o % BSIZE, chunk));
      disk := disk[x.value := Splice(disk[x.value], o % BSIZE, chunk)];
      logged := logged + {x.value};
      return true, b, got, d1;
    }

    /** Free every block of the inode and nothing else.  bfree cannot panic. */
    method Itrunc(ip: Inode, ghost others: set<nat>)
      requires Owns(ip, others) && ip.inum < |inodes|
      modifies this`bitmap, this`logged, this`inodes, ip`addrs, ip`size
      ensures Owns(ip, others) && Own(ip.addrs, disk) == {} && Used() == others && ip.size == 0
      ensures forall i :: 0 <= i <= NDIRECT ==> ip.addrs[i] == 0
      ensures inodes == old(inodes)[ip.inum := Dinode(0, ip.addrs)]
    {
      var i := 0;
      while i < NDIRECT
        invariant 0 <= i <= NDIRECT && Owns(ip, others) && inodes == old(inodes)
        invariant forall k :: 0 <= k < i ==> ip.addrs[k] == 0
      {
        if ip.addrs[i] != 0 {
          DropSlot(ip.addrs, disk, i);
          var panicked := Bfree(ip.addrs[i]);
          assert !panicked;
          ip.addrs := ip.addrs[i := 0];
        }
        i := i + 1;
      }
      if ip.addrs[NDIRECT] != 0 {
        FreeIndirect(ip, others);
      }
      NothingOwned(ip.addrs, disk);
      ip.size := 0;
      Iupdate(ip);
    }

    /** The second half of itrunc: the words of the indirect block, then the block itself. */
    method FreeIndirect(ip: Inode, ghost others: set<nat>)
      requires Owns(ip, others) && ip.addrs[NDIRECT] != 0
      requires forall k :: 0 <= k < NDIRECT ==> ip.addrs[k] == 0
      modifies this`bitmap, this`logged, ip`addrs
      ensures Owns(ip, others) && forall k :: 0 <= k <= NDIRECT ==> ip.addrs[k] == 0
    {
      var a, ind := ip.addrs, ip.addrs[NDIRECT];
      IndirectInRange(a, disk);
      WordsBefore(a, disk, 0);
      var j := 0;
      while j < NINDIRECT
        invariant 0 <= j <= NINDIRECT && ip.addrs == a && Shape()
        invariant Used() == others + (Own(a, disk) - Words(a, disk, j))
      {
        WordsStep(a, disk, j);
        var w := Word(disk[ind], j);
        if w != 0 {
          var panicked := Bfree(w);
          assert !panicked;
        }
        j := j + 1;
      }
      AllWords(a, disk);
      var panicked := Bfree(ind);
      assert !panicked;
      ip.addrs := a[NDIRECT := 0];
      NothingOwned(ip.addrs, disk);
    }
  }

  /** The bit balloc looks at is the one for block b + bi, and setting it adds just that block. */
  lemma ScannedBit(bitmap: seq<Bitmap.Bytes>, size: nat, b: nat, bi: nat)
    requires b % Bitmap.BPB == 0 && bi < Bitmap.BPB && b + bi < size <= |bitmap| * Bitmap.BPB
    ensures b / Bitmap.BPB < |bitmap|
    ensures b + bi in Bitmap.Used(bitmap, size) <==> Bitmap.TestBit(bitmap[b / Bitmap.BPB], bi)
    ensures Bitmap.Used(bitmap[b / Bitmap.BPB := Bitmap.SetBit(bitmap[b / Bitmap.BPB], bi)], size)
         == Bitmap.Used(bitmap, size) + {b + bi}
  {
    BitPosition(b, bi);
    Bitmap.MarkOne(bitmap, size, b + bi);
    assert Bitmap.Marked(bitmap, b + bi) <==> Bitmap.TestBit(bitmap[b / Bitmap.BPB], bi);
  }

  lemma BitPosition(b: nat, bi: nat)
    requires b % Bitmap.BPB == 0 && bi < Bitmap.BPB
    ensures (b + bi) / Bitmap.BPB == b / Bitmap.BPB && (b + bi) % Bitmap.BPB == bi
  {
  }
}
