/** writei and itrunc on one inode of a mounted volume, and what they do to the ownership of all blocks. */
module InodeTable {
  import opened Params
  import opened FsSpec
  import opened FsMap
  import opened FsBytes
  import opened Ownership
  import opened Volume

  /** Between operations: the free map and the inode table agree on every block. */
  ghost predicate Sound(v: Volume, meta: set<nat>) reads v {
    v.Shape() && Owned(AddrsOf(v.inodes), v.disk, v.Used(), meta)
  }

  /** ilock has loaded ip from its table entry. */
  ghost predicate Loaded(v: Volume, ip: Inode) reads v, ip {
    ip.inum < |v.inodes| && v.inodes[ip.inum] == Dinode(ip.size, ip.addrs)
  }

  ghost function StateOf(v: Volume): State
    requires v.Shape()
    reads v
  {
    State(v.inodes, v.disk, v.Used())
  }

  method Write(v: Volume, ip: Inode, src: seq<byte>, off: nat, ghost meta: set<nat>) returns (r: Outcome)
    requires Sound(v, meta) && Loaded(v, ip) && NoHoles(ip.addrs, v.disk, ip.size) && off < TWO32 && |src| < TWO32
    modifies v, ip
    ensures !r.Panic? ==> Sound(v, meta) && Loaded(v, ip) && FileOperation(old(StateOf(v)), StateOf(v), ip.inum)
    ensures !r.Panic? ==> forall i: nat :: i != ip.inum ==> KeptFile(old(StateOf(v)), StateOf(v), i)
    ensures r.Panic? ==> v.Full()
    ensures r.Failed? <==>
              off > old(ip.size) || (off + |src|) % TWO32 < off || (off + |src|) % TWO32 > MAXFILE * BSIZE
    ensures r.Failed? ==> StateOf(v) == old(StateOf(v))
    ensures r.Done? ==>
              && off <= |old(Contents(ip.addrs, v.disk, ip.size))|
              && Contents(ip.addrs, v.disk, ip.size) == Replaced(old(Contents(ip.addrs, v.disk, ip.size)), off, src)
  {
    ghost var table, used, d, s := AddrsOf(v.inodes), v.Used(), v.disk, StateOf(v);
    ghost var others := Others(table, d, used, ip.inum);
    SplitOff(table, d, used, meta, ip.inum);
    hide Owned, WellMapped, Own, Contents, NoHoles, KeptFile, SameOn;
    TableEntry(table, d, used, meta, ip.inum);
    SizeFits(ip.addrs, d, ip.size);
    ghost var got;
    r, got := v.Writei(ip, src, off, others);
    if r.Done? {
      assert AddrsOf(v.inodes) == table[ip.inum := ip.addrs];
    } else {
      SameOnSelf(others, d);
    }
    if !r.Panic? {
      OperationKeepsOwned(table, d, used, meta, AddrsOf(v.inodes), v.disk, v.Used(), ip.inum);
      OthersKept(s, StateOf(v), ip.inum, meta);
    }
  }

  method Trunc(v: Volume, ip: Inode, ghost meta: set<nat>)
    requires Sound(v, meta) && Loaded(v, ip)
    modifies v, ip
    ensures Sound(v, meta) && Loaded(v, ip) && ip.size == 0 && Own(ip.addrs, v.disk) == {}
    ensures v.Used() == old(v.Used()) - old(Own(ip.addrs, v.disk))
    ensures FileOperation(old(StateOf(v)), StateOf(v), ip.inum)
    ensures forall i: nat :: i != ip.inum ==> KeptFile(old(StateOf(v)), StateOf(v), i)
  {
    ghost var table, used, d, s := AddrsOf(v.inodes), v.Used(), v.disk, StateOf(v);
    ghost var others := Others(table, d, used, ip.inum);
    SplitOff(table, d, used, meta, ip.inum);
    hide Owned, WellMapped, Own, KeptFile, SameOn;
    TableEntry(table, d, used, meta, ip.inum);
    v.Itrunc(ip, others);
    assert AddrsOf(v.inodes) == table[ip.inum := ip.addrs];
    SameOnSelf(others, d);
    OperationKeepsOwned(table, d, used, meta, AddrsOf(v.inodes), v.disk, v.Used(), ip.inum);
    OthersKept(s, StateOf(v), ip.inum, meta);
  }

  lemma TableEntry(table: seq<Addrs>, d: Disk, used: set<nat>, meta: set<nat>, k: nat)
    requires Owned(table, d, used, meta) && k < |table|
    ensures WellMapped(table[k], d)
  {
  }
}
