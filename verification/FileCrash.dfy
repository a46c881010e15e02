/**
  File writes meet the log: the blocks writei passes to log_write, run as operations of the crash
  machine.  `enc` is how a block's contents look on the disk; `DiskFormat` is one such format.
 */
module FileCrash {
  import opened Params
  import opened FsSpec
  import opened FsMap
  import opened FsBytes
  import opened FsImage
  import opened FsFormat
  import Ownership
  import Log = LogSpec
  import opened CrashMachine
  import opened CrashSafety

  // ---- the operation's writes -----------------------------------------------------------------------

  predicate WritesAt(e: Event, id: OpId, b: nat) { e.Write? && e.id == id && e.b == b }

  /** Event i is the operation's last write of the block it writes. */
  predicate LastWrite(es: seq<Event>, id: OpId, i: int) {
    0 <= i < |es| && es[i].Write? && es[i].id == id && forall j :: i < j < |es| ==> !WritesAt(es[j], id, es[i].b)
  }

  /** The operation has written all blocks in `log`, and last of all what they hold in `after`. */
  ghost predicate Journal(es: seq<Event>, id: OpId, l: Layout, enc: Content -> Log.Sector, after: Image,
                          log: set<nat>)
  {
    && (forall b :: b in log ==> exists i :: 0 <= i < |es| && WritesAt(es[i], id, b))
    && (forall i :: LastWrite(es, id, i) ==> es[i].b < |after.disk| && es[i].data == enc(ContentAt(l, after, es[i].b)))
  }

  /** The home blocks hold the volume. */
  ghost predicate HoldsImage(h: Log.Home, g: Log.Geometry, l: Layout, enc: Content -> Log.Sector, s: Image) {
    && (forall b: nat :: b < |s.disk| && !Log.InLog(g, b) ==> b in h)
    && (forall b: nat :: b in h ==> b < |s.disk| && h[b] == enc(ContentAt(l, s, b)))
  }

  /** What the writes of one operation leave in block b: the last one there, or what was there. */
  lemma {:induction false} ReplayValue(h: Log.Home, es: seq<Event>, id: OpId, b: nat) returns (i: int)
    ensures b in h ==> b in Replay(h, es, {id})
    ensures i < 0 ==>
              && (forall j :: 0 <= j < |es| ==> !WritesAt(es[j], id, b))
              && (b in Replay(h, es, {id}) ==> b in h && Replay(h, es, {id})[b] == h[b])
    ensures i >= 0 ==> LastWrite(es, id, i) && es[i].b == b
    ensures i >= 0 ==> b in Replay(h, es, {id}) && Replay(h, es, {id})[b] == es[i].data
    decreases |es|
  {
    i := -1;
    if es != [] {
      var n := |es| - 1;
      i := ReplayValue(h, es[..n], id, b);
      if WritesAt(es[n], id, b) {
        i := n;
      } else if i >= 0 {
        forall j | i < j < |es| ensures !WritesAt(es[j], id, es[i].b) {
          assert j < n ==> es[j] == es[..n][j];
        }
      } else {
        forall j | 0 <= j < |es| ensures !WritesAt(es[j], id, b) {
          assert j < n ==> es[j] == es[..n][j];
        }
      }
    }
  }

  lemma ReplayedAfter(h: Log.Home, g: Log.Geometry, es: seq<Event>, id: OpId, l: Layout, enc: Content -> Log.Sector,
                      before: Image, after: Image, log: set<nat>)
    requires HoldsImage(h, g, l, enc, before) && LoggedAll(l.bmapstart, l.inodestart, before, after, log)
    requires Journal(es, id, l, enc, after, log)
    ensures HoldsImage(Replay(h, es, {id}), g, l, enc, after)
  {
    hide Replay, ContentAt, LoggedAll;
    var h' := Replay(h, es, {id});
    SameSize(l, before, after, log);
    forall b: nat | b < |after.disk| && !Log.InLog(g, b) ensures b in h' {
      var i := ReplayValue(h, es, id, b);
    }
    forall b: nat | b in h' ensures b < |after.disk| && h'[b] == enc(ContentAt(l, after, b)) {
      var i := ReplayValue(h, es, id, b);
      if i < 0 {
        assert b !in log;
        UnloggedSame(l, before, after, log, b);
      }
    }
  }

  lemma SameSize(l: Layout, before: Image, after: Image, log: set<nat>)
    requires LoggedAll(l.bmapstart, l.inodestart, before, after, log)
    ensures |after.disk| == |before.disk|
  {
  }

  // ---- any operations, side by side ---------------------------------------------------------------

  /**
    If at every moment with no operation under way the current blocks hold the volume s[q], then after any
    run, with crashes anywhere, the recoverable blocks hold the volume of one of those moments.
   */
  lemma VolumeAfterCrash(g: Log.Geometry, d: Log.Disk, es: seq<Event>, l: Layout, enc: Content -> Log.Sector,
                         s: seq<Image>) returns (q: nat)
    requires Formatted(g, d) && Run(g, d, es).At? && |s| == |es| + 1
    requires forall q: nat :: Quiescent(g, d, es, q) ==> HoldsImage(Run(g, d, es[..q]).c.a.current, g, l, enc, s[q])
    ensures Quiescent(g, d, es, q) && HoldsImage(Log.Recovered(g, Run(g, d, es).c.s.disk), g, l, enc, s[q])
  {
    hide Run, Log.Recovered, Formatted, HoldsImage;
    q := RecoversQuiescent(g, d, es);
  }

  // ---- file operations, one after the other, committed in groups -----------------------------------

  /** An operation, the volume it leaves and the blocks it logs. */
  datatype FileOp = FileOp(id: OpId, after: Image, log: set<nat>)

  /** The volume after the first k operations. */
  function ImageAfter(before: Image, ops: seq<FileOp>, k: nat): Image
    requires k <= |ops|
  {
    if k == 0 then before else ops[k - 1].after
  }

  /** Each operation logs all it changes, and they have different names. */
  ghost predicate Consecutive(l: Layout, before: Image, ops: seq<FileOp>) {
    && (forall k: nat :: k < |ops| ==>
          LoggedAll(l.bmapstart, l.inodestart, ImageAfter(before, ops, k), ops[k].after, ops[k].log))
    && (forall j, k :: 0 <= j < k < |ops| ==> ops[j].id != ops[k].id)
  }

  predicate Wrote(es: seq<Event>, id: OpId) { exists i :: 0 <= i < |es| && es[i].Write? && es[i].id == id }

  /** Event i is a write of operation k. */
  predicate WriteOf(es: seq<Event>, ops: seq<FileOp>, i: int, k: int) {
    0 <= i < |es| && 0 <= k < |ops| && es[i].Write? && es[i].id == ops[k].id
  }

  /**
    The operations write one after the other, as many of them as like being under way at a time; once one has
    ended, or a later one has written, its journal is complete.  Nobody writes after a crash.
   */
  ghost predicate Serial(es: seq<Event>, ops: seq<FileOp>, l: Layout, enc: Content -> Log.Sector) {
    && (forall i :: 0 <= i < |es| && es[i].Write? ==> exists k :: WriteOf(es, ops, i, k))
    && (forall i, j, k, m :: WriteOf(es, ops, i, k) && WriteOf(es, ops, j, m) && k < m ==> i < j)
    && (forall i, j :: 0 <= i < j < |es| && es[i].Crash? ==> !es[j].Write?)
    && (forall k: nat :: k < |ops| && HasEnded(es, ops[k].id) ==> JournalOf(es, ops, k, l, enc))
    && (forall k: nat, m: nat :: k < m < |ops| && Wrote(es, ops[m].id) ==> JournalOf(es, ops, k, l, enc))
  }

  ghost predicate JournalOf(es: seq<Event>, ops: seq<FileOp>, k: nat, l: Layout, enc: Content -> Log.Sector)
    requires k < |ops|
  {
    Journal(es, ops[k].id, l, enc, ops[k].after, ops[k].log)
  }

  ghost function Ids(ops: seq<FileOp>, k: nat): set<OpId>
    requires k <= |ops|
  {
    set i | 0 <= i < k :: ops[i].id
  }

  /** Writes that come after all others can be replayed after all others. */
  lemma {:induction false} ReplayLater(h: Log.Home, es: seq<Event>, ids: set<OpId>, id: OpId)
    requires forall i, j :: (&& 0 <= i < |es| && 0 <= j < |es| && es[i].Write? && es[i].id in ids
                             && es[j].Write? && es[j].id == id) ==> i < j
    ensures Replay(h, es, ids + {id}) == Replay(Replay(h, es, ids), es, {id})
    decreases |es|
  {
    if es != [] {
      var n := |es| - 1;
      var e, pre := es[n], es[..n];
      ReplayLater(h, pre, ids, id);
      if e.Write? && e.id in ids {
        assert e.id != id;
        NoWrites(Replay(h, pre, ids), pre, id);
        NoWrites(Replay(h, es, ids), es, id);
      }
    }
  }

  lemma {:induction false} NoWrites(h: Log.Home, es: seq<Event>, id: OpId)
    requires forall j :: 0 <= j < |es| && es[j].Write? ==> es[j].id != id
    ensures Replay(h, es, {id}) == h
    decreases |es|
  {
    if es != [] {
      NoWrites(h, es[..|es| - 1], id);
    }
  }

  lemma {:induction false} SameWriters(h: Log.Home, es: seq<Event>, ids: set<OpId>, ids': set<OpId>)
    requires forall j :: 0 <= j < |es| && es[j].Write? ==> (es[j].id in ids <==> es[j].id in ids')
    ensures Replay(h, es, ids) == Replay(h, es, ids')
    decreases |es|
  {
    if es != [] {
      SameWriters(h, es[..|es| - 1], ids, ids');
    }
  }

  lemma IdsNext(ops: seq<FileOp>, k: nat)
    requires k < |ops|
    ensures Ids(ops, k + 1) == Ids(ops, k) + {ops[k].id} && Ids(ops, 0) == {}
  {
  }

  lemma {:induction false} ReplayedOps(h: Log.Home, g: Log.Geometry, es: seq<Event>, l: Layout,
                                       enc: Content -> Log.Sector, before: Image, ops: seq<FileOp>, n: nat)
    requires n <= |ops| && HoldsImage(h, g, l, enc, before) && Consecutive(l, before, ops) && Serial(es, ops, l, enc)
    requires forall k: nat :: k < n ==> JournalOf(es, ops, k, l, enc)
    ensures HoldsImage(Replay(h, es, Ids(ops, n)), g, l, enc, ImageAfter(before, ops, n))
  {
    hide HoldsImage, Replay, LoggedAll, Journal;
    if n == 0 {
      assert Ids(ops, 0) == {};
      NothingReplayed(h, es);
    } else {
      var k := n - 1;
      ReplayedOps(h, g, es, l, enc, before, ops, k);
      IdsNext(ops, k);
      forall i, j | && 0 <= i < |es| && 0 <= j < |es| && es[i].Write? && es[i].id in Ids(ops, k)
                    && es[j].Write? && es[j].id == ops[k].id
        ensures i < j
      {
        var m :| 0 <= m < k && ops[m].id == es[i].id;
        assert WriteOf(es, ops, i, m) && WriteOf(es, ops, j, k);
      }
      ReplayLater(h, es, Ids(ops, k), ops[k].id);
      assert JournalOf(es, ops, k, l, enc);
      ReplayedAfter(Replay(h, es, Ids(ops, k)), g, es, ops[k].id, l, enc, ImageAfter(before, ops, k), ops[k].after,
                    ops[k].log);
    }
  }

  lemma {:induction false} NothingReplayed(h: Log.Home, es: seq<Event>)
    ensures Replay(h, es, {}) == h
    decreases |es|
  {
    if es != [] {
      NothingReplayed(h, es[..|es| - 1]);
    }
  }

  /** What is committed is, among the operations that wrote, the first n. */
  ghost predicate CommittedFirst(es: seq<Event>, ops: seq<FileOp>, committed: set<OpId>, n: nat) {
    n <= |ops| && forall k: nat :: k < |ops| && Wrote(es, ops[k].id) ==> (ops[k].id in committed <==> k < n)
  }

  lemma CommitsInOrder(g: Log.Geometry, d: Log.Disk, es: seq<Event>, l: Layout, enc: Content -> Log.Sector,
                       ops: seq<FileOp>) returns (n: nat)
    requires Formatted(g, d) && Run(g, d, es).At? && Serial(es, ops, l, enc)
    ensures CommittedFirst(es, ops, Run(g, d, es).c.a.committed, n)
    ensures n > 0 ==> ops[n - 1].id in Run(g, d, es).c.a.committed && Wrote(es, ops[n - 1].id)
  {
    hide Run, Formatted, JournalOf;
    var committed := Run(g, d, es).c.a.committed;
    n := |ops|;
    while n > 0 && !(Wrote(es, ops[n - 1].id) && ops[n - 1].id in committed)
      invariant n <= |ops|
      invariant forall k: nat :: n <= k < |ops| && Wrote(es, ops[k].id) ==> ops[k].id !in committed
    {
      n := n - 1;
    }
    if n > 0 {
      var last := n - 1;
      var j :| 0 <= j < |es| && es[j].Write? && es[j].id == ops[last].id;
      forall k: nat | k < last && Wrote(es, ops[k].id) ensures ops[k].id in committed {
        var i :| 0 <= i < |es| && es[i].Write? && es[i].id == ops[k].id;
        assert WriteOf(es, ops, i, k) && WriteOf(es, ops, j, last);
        OlderIsCommitted(g, d, es, i, j);
      }
    }
  }

  /**
    File operations that write one after the other, under way together and committed in groups as it
    happens, over any run with crashes anywhere: the recoverable blocks hold the volume after the first n
    operations, and of those that wrote exactly these are committed.
   */
  lemma GroupIsAtomic(g: Log.Geometry, d: Log.Disk, es: seq<Event>, l: Layout, enc: Content -> Log.Sector,
                      before: Image, ops: seq<FileOp>) returns (n: nat)
    requires Formatted(g, d) && Run(g, d, es).At? && HoldsImage(Log.HomeOf(g, d), g, l, enc, before)
    requires Consecutive(l, before, ops) && Serial(es, ops, l, enc)
    ensures CommittedFirst(es, ops, Run(g, d, es).c.a.committed, n)
    ensures HoldsImage(Log.Recovered(g, Run(g, d, es).c.s.disk), g, l, enc, ImageAfter(before, ops, n))
    ensures n > 0 ==> HasEnded(es, ops[n - 1].id)
  {
    hide Run, Log.Recovered, Log.HomeOf, Formatted, HoldsImage, Journal, Consecutive, Replay;
    CrashAtomicity(g, d, es);
    n := CommitsInOrder(g, d, es, l, enc, ops);
    var committed := Run(g, d, es).c.a.committed;
    AllJournaled(es, l, enc, ops, committed, n);
    ReplayedOps(Log.HomeOf(g, d), g, es, l, enc, before, ops, n);
    WritersAre(es, l, enc, ops, committed, n);
    SameWriters(Log.HomeOf(g, d), es, committed, Ids(ops, n));
  }

  lemma AllJournaled(es: seq<Event>, l: Layout, enc: Content -> Log.Sector, ops: seq<FileOp>, committed: set<OpId>,
                     n: nat)
    requires Serial(es, ops, l, enc) && n <= |ops| && forall id :: id in committed ==> HasEnded(es, id)
    requires n > 0 ==> ops[n - 1].id in committed && Wrote(es, ops[n - 1].id)
    ensures forall k: nat :: k < n ==> JournalOf(es, ops, k, l, enc)
  {
    hide JournalOf;
  }

  lemma WritersAre(es: seq<Event>, l: Layout, enc: Content -> Log.Sector, ops: seq<FileOp>, committed: set<OpId>,
                   n: nat)
    requires Serial(es, ops, l, enc) && CommittedFirst(es, ops, committed, n)
    ensures forall j :: 0 <= j < |es| && es[j].Write? ==> (es[j].id in committed <==> es[j].id in Ids(ops, n))
  {
    hide JournalOf;
    forall j | 0 <= j < |es| && es[j].Write? ensures es[j].id in committed <==> es[j].id in Ids(ops, n) {
      var k :| WriteOf(es, ops, j, k);
      assert Wrote(es, ops[k].id);
      if es[j].id in Ids(ops, n) {
        var m :| 0 <= m < n && ops[m].id == es[j].id;
        assert Wrote(es, ops[m].id);
      }
    }
  }

  /**
    One operation, the only one to write: the recoverable blocks hold the volume as it was before the
    operation, or as it was after; the latter only if the operation had ended.
   */
  lemma WriteIsAtomic(g: Log.Geometry, d: Log.Disk, es: seq<Event>, id: OpId, l: Layout, enc: Content -> Log.Sector,
                      before: Image, after: Image, log: set<nat>)
    requires Formatted(g, d) && Run(g, d, es).At? && HoldsImage(Log.HomeOf(g, d), g, l, enc, before)
    requires LoggedAll(l.bmapstart, l.inodestart, before, after, log)
    requires forall i :: 0 <= i < |es| && es[i].Write? ==> es[i].id == id
    requires HasEnded(es, id) ==> Journal(es, id, l, enc, after, log)
    ensures var h := Log.Recovered(g, Run(g, d, es).c.s.disk);
            HoldsImage(h, g, l, enc, before) || (HasEnded(es, id) && HoldsImage(h, g, l, enc, after))
    ensures id in Run(g, d, es).c.a.committed ==>
              HoldsImage(Log.Recovered(g, Run(g, d, es).c.s.disk), g, l, enc, after)
  {
    hide Run, Log.Recovered, Log.HomeOf, Formatted, HoldsImage, Journal, LoggedAll, Replay;
    CrashAtomicity(g, d, es);
    var committed := Run(g, d, es).c.a.committed;
    if id in committed {
      SameWriters(Log.HomeOf(g, d), es, committed, {id});
      ReplayedAfter(Log.HomeOf(g, d), g, es, id, l, enc, before, after, log);
    } else {
      SameWriters(Log.HomeOf(g, d), es, committed, {});
      NothingReplayed(Log.HomeOf(g, d), es);
    }
  }

  // ---- reading the file back ------------------------------------------------------------------------

  /** The log, the inode blocks, the bitmap and the file's data follow each other. */
  ghost predicate Arranged(g: Log.Geometry, l: Layout, s: Image, inum: nat) {
    && g.start + g.nlog <= l.inodestart && l.inodestart + InodeBlocks(|s.inodes|) <= l.bmapstart
    && l.bmapstart + |s.bitmap| <= |s.disk| && inum < |s.inodes| && Stored(s)
    && WellMapped(s.inodes[inum].addrs, s.disk) && NoHoles(s.inodes[inum].addrs, s.disk, s.inodes[inum].size)
    && forall b :: b in Own(s.inodes[inum].addrs, s.disk) ==> l.bmapstart + |s.bitmap| <= b < |s.disk|
  }

  /** A volume of these sizes, read from the disk. */
  ghost predicate Found(s: Image, t: Image) {
    |t.disk| == |s.disk| && |t.bitmap| == |s.bitmap| && |t.inodes| == |s.inodes| && Stored(t)
  }

  lemma SameContent(h: Log.Home, g: Log.Geometry, l: Layout, enc: Content -> Log.Sector, s: Image, t: Image, b: nat)
    requires HoldsImage(h, g, l, enc, s) && HoldsImage(h, g, l, enc, t) && Separates(enc) && Stored(s) && Found(s, t)
    requires b < |s.disk| && !Log.InLog(g, b)
    ensures ContentAt(l, t, b) == ContentAt(l, s, b)
  {
    StoredContent(l, s, b);
    StoredContent(l, t, b);
    AlikeAt(l, s, t, b);
    hide ContentAt, Stored;
    assert b in h;
  }

  lemma SameEntry(h: Log.Home, g: Log.Geometry, l: Layout, enc: Content -> Log.Sector, s: Image, t: Image, inum: nat)
    requires HoldsImage(h, g, l, enc, s) && HoldsImage(h, g, l, enc, t) && Separates(enc)
    requires Found(s, t) && Arranged(g, l, s, inum)
    ensures t.inodes[inum] == s.inodes[inum]
  {
    var k := inum / IPB;
    hide WellMapped, NoHoles, Own, HoldsImage, Separates, Stored;
    assert k < InodeBlocks(|s.inodes|);
    SameContent(h, g, l, enc, s, t, l.inodestart + k);
    assert Entries(t.inodes, k) == Entries(s.inodes, k);
    assert Entries(t.inodes, k)[inum - k * IPB] == t.inodes[inum];
    assert Entries(s.inodes, k)[inum - k * IPB] == s.inodes[inum];
  }

  /** Whatever volume the blocks hold, they hold one file. */
  lemma ReadBack(h: Log.Home, g: Log.Geometry, l: Layout, enc: Content -> Log.Sector, s: Image, t: Image, inum: nat)
    requires HoldsImage(h, g, l, enc, s) && HoldsImage(h, g, l, enc, t) && Separates(enc)
    requires Found(s, t) && Arranged(g, l, s, inum)
    ensures ImageFile(t, inum) == ImageFile(s, inum)
  {
    SameEntry(h, g, l, enc, s, t, inum);
    var a := s.inodes[inum].addrs;
    hide WellMapped, NoHoles, Own, HoldsImage, Separates, Stored;
    forall b: nat | b in Own(a, s.disk) ensures b < |s.disk| && t.disk[b] == s.disk[b] {
      SameContent(h, g, l, enc, s, t, b);
    }
    SameBlocks(a, s.disk, t.disk);
    Ownership.UnaffectedContents(a, s.disk, t.disk, Own(a, s.disk), s.inodes[inum].size);
  }

  lemma SameBlocks(a: Addrs, d: Disk, d': Disk)
    requires |d'| == |d| && forall b: nat :: b in Own(a, d) ==> b < |d| && d'[b] == d[b]
    ensures SameOn(Own(a, d), d, d')
  {
  }

  /**
    The file on whatever volume is found after the crash is the one left by the first n operations, of which
    those that wrote are committed and no others.
   */
  lemma FilesAfterCrash(g: Log.Geometry, d: Log.Disk, es: seq<Event>, l: Layout, enc: Content -> Log.Sector,
                        before: Image, ops: seq<FileOp>, found: Image, inum: nat) returns (n: nat)
    requires Formatted(g, d) && Run(g, d, es).At? && HoldsImage(Log.HomeOf(g, d), g, l, enc, before) && Separates(enc)
    requires Consecutive(l, before, ops) && Serial(es, ops, l, enc)
    requires forall k: nat :: k <= |ops| ==> Arranged(g, l, ImageAfter(before, ops, k), inum)
    requires HoldsImage(Log.Recovered(g, Run(g, d, es).c.s.disk), g, l, enc, found)
    requires forall k: nat :: k <= |ops| ==> Found(ImageAfter(before, ops, k), found)
    ensures CommittedFirst(es, ops, Run(g, d, es).c.a.committed, n) && inum < |found.inodes|
    ensures inum < |ImageAfter(before, ops, n).inodes|
    ensures ImageFile(found, inum) == ImageFile(ImageAfter(before, ops, n), inum)
  {
    hide Run, Log.Recovered, Log.HomeOf, Formatted, HoldsImage, Consecutive, Serial, Separates, ImageFile;
    n := GroupIsAtomic(g, d, es, l, enc, before, ops);
    assert Arranged(g, l, ImageAfter(before, ops, n), inum) && Found(ImageAfter(before, ops, n), found);
    ReadBack(Log.Recovered(g, Run(g, d, es).c.s.disk), g, l, enc, ImageAfter(before, ops, n), found, inum);
  }

  /**
    Whatever happens while src is being written at off, the file on the volume that is found after
    the crash is the old one, or the one with all of src in it.
   */
  lemma FileAfterCrash(g: Log.Geometry, d: Log.Disk, es: seq<Event>, id: OpId, l: Layout, enc: Content -> Log.Sector,
                       before: Image, after: Image, log: set<nat>, found: Image, inum: nat, off: nat, src: seq<byte>)
    requires Formatted(g, d) && Run(g, d, es).At? && HoldsImage(Log.HomeOf(g, d), g, l, enc, before) && Separates(enc)
    requires LoggedAll(l.bmapstart, l.inodestart, before, after, log)
    requires forall i :: 0 <= i < |es| && es[i].Write? ==> es[i].id == id
    requires HasEnded(es, id) ==> Journal(es, id, l, enc, after, log)
    requires Arranged(g, l, before, inum) && Arranged(g, l, after, inum) && off <= |ImageFile(before, inum)|
    requires ImageFile(after, inum) == Replaced(ImageFile(before, inum), off, src)
    requires HoldsImage(Log.Recovered(g, Run(g, d, es).c.s.disk), g, l, enc, found) && Found(before, found)
    ensures inum < |found.inodes|
    ensures ImageFile(found, inum) == ImageFile(before, inum)
            || (HasEnded(es, id) && ImageFile(found, inum) == Replaced(ImageFile(before, inum), off, src))
    ensures id in Run(g, d, es).c.a.committed ==>
              ImageFile(found, inum) == Replaced(ImageFile(before, inum), off, src)
  {
    WriteIsAtomic(g, d, es, id, l, enc, before, after, log);
    FoundBoth(l, before, after, log, found);
    HasInode(g, l, before, inum);
    hide Run, Log.Recovered, Log.HomeOf, Formatted, HoldsImage, Journal, Separates, ImageFile, Arranged, HasEnded;
    hide Found, LoggedAll;
    var h := Log.Recovered(g, Run(g, d, es).c.s.disk);
    if HoldsImage(h, g, l, enc, before) {
      ReadBack(h, g, l, enc, before, found, inum);
    }
    if HoldsImage(h, g, l, enc, after) {
      ReadBack(h, g, l, enc, after, found, inum);
    }
  }

  lemma FoundBoth(l: Layout, before: Image, after: Image, log: set<nat>, found: Image)
    requires LoggedAll(l.bmapstart, l.inodestart, before, after, log) && Found(before, found)
    ensures Found(after, found) && |found.inodes| == |before.inodes|
  {
  }

  lemma HasInode(g: Log.Geometry, l: Layout, s: Image, inum: nat)
    requires Arranged(g, l, s, inum)
    ensures inum < |s.inodes|
  {
  }
}
