/** What the blocks of a volume hold, and that nothing changes outside the log. */
module FsImage {
  import opened Params
  import opened FsSpec
  import Bitmap

  /** The free map, the data blocks and the inode table. */
  datatype Image = Image(bitmap: seq<Bitmap.Bytes>, disk: Disk, inodes: seq<Dinode>)

  /** The file of an inode. */
  ghost function ImageFile(s: Image, inum: nat): seq<byte>
    requires inum < |s.inodes|
  {
    Contents(s.inodes[inum].addrs, s.disk, s.inodes[inum].size)
  }

  function IBlock(inodestart: nat, inum: nat): nat { inum / IPB + inodestart }

  /** Every block that differs between the two is in `log`. */
  ghost predicate LoggedAll(bmapstart: nat, inodestart: nat, before: Image, after: Image, log: set<nat>) {
    && |after.bitmap| == |before.bitmap| && |after.disk| == |before.disk| && |after.inodes| == |before.inodes|
    && (forall i: nat :: i < |after.bitmap| && after.bitmap[i] != before.bitmap[i] ==> bmapstart + i in log)
    && (forall b: nat :: b < |after.disk| && after.disk[b] != before.disk[b] ==> b in log)
    && (forall i: nat :: i < |after.inodes| && after.inodes[i] != before.inodes[i] ==> IBlock(inodestart, i) in log)
  }

  lemma LoggedNothing(bmapstart: nat, inodestart: nat, image: Image, log: set<nat>)
    ensures LoggedAll(bmapstart, inodestart, image, image, log)
  {
  }

  lemma LoggedTwice(bmapstart: nat, inodestart: nat, i0: Image, i1: Image, log1: set<nat>, i2: Image, log2: set<nat>)
    requires LoggedAll(bmapstart, inodestart, i0, i1, log1)
    requires LoggedAll(bmapstart, inodestart, i1, i2, log2) && log1 <= log2
    ensures LoggedAll(bmapstart, inodestart, i0, i2, log2)
  {
  }

}
