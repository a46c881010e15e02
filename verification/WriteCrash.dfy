/**
  filewrite and the log together: whatever run the transactions of a write are part of, the file found
  after a crash holds the bytes of the first transactions and of no others.
 */
module WriteCrash {
  import opened Params
  import opened FsSpec
  import opened FsBytes
  import opened FsImage
  import opened FsFormat
  import opened FileCrash
  import Log = LogSpec
  import Machine = CrashMachine
  import opened CrashSafety
  import Vol = Volume
  import Files = FileLayer

  /** The log, the inode blocks and the bitmap follow each other, and all of them are metadata. */
  ghost predicate Laid(g: Log.Geometry, l: Layout, s: Image, others: set<nat>) {
    && g.start + g.nlog <= l.inodestart && l.inodestart + InodeBlocks(|s.inodes|) <= l.bmapstart
    && l.bmapstart + |s.bitmap| <= |s.disk| && forall b: nat :: b < l.bmapstart + |s.bitmap| ==> b in others
  }

  ghost predicate SameSizes(s: Image, t: Image) {
    |t.disk| == |s.disk| && |t.bitmap| == |s.bitmap| && |t.inodes| == |s.inodes|
  }

  lemma SaneArranged(g: Log.Geometry, l: Layout, start: Image, s: Image, inum: nat, others: set<nat>)
    requires Laid(g, l, start, others) && Stored(start) && SameSizes(start, s) && Files.Sane(start, s, inum, others)
    ensures Arranged(g, l, s, inum)
  {
    var e := s.inodes[inum];
    assert Fits32(e) by {
      forall i | 0 <= i <= NDIRECT ensures e.addrs[i] < TWO32 {
        assert Slot(e.addrs, s.disk, i) < |s.disk|;
      }
    }
    forall b | b in Own(e.addrs, s.disk) ensures l.bmapstart + |s.bitmap| <= b < |s.disk| {
      assert b !in others;
    }
  }

  /** The transactions as operations of the log. */
  function OpsOf(ids: seq<Machine.OpId>, trail: seq<Files.Chunk>): (ops: seq<FileOp>)
    requires |ids| == |trail|
    ensures |ops| == |trail| && forall k :: 0 <= k < |ops| ==> ops[k] == FileOp(ids[k], trail[k].after, trail[k].log)
  {
    seq(|trail|, k requires 0 <= k < |trail| => FileOp(ids[k], trail[k].after, trail[k].log))
  }

  lemma SameBefore(start: Image, ids: seq<Machine.OpId>, trail: seq<Files.Chunk>, k: nat)
    requires |ids| == |trail| && k <= |trail|
    ensures ImageAfter(start, OpsOf(ids, trail), k) == Files.Before(start, trail, k)
  {
  }

  lemma {:induction false} TrailSizes(v: Vol.Volume, start: Image, trail: seq<Files.Chunk>, k: nat, inum: nat,
                                      others: set<nat>, off: nat, src: seq<byte>)
    requires Files.Trail(v, start, trail, inum, others, off, src) && k <= |trail|
    ensures SameSizes(start, Files.Before(start, trail, k))
  {
    if k > 0 {
      TrailSizes(v, start, trail, k - 1, inum, others, off, src);
      assert Files.TrailAt(v, start, trail, k - 1, inum, others, off, src);
    }
  }

  lemma TrailConsecutive(v: Vol.Volume, l: Layout, start: Image, ids: seq<Machine.OpId>, trail: seq<Files.Chunk>,
                         inum: nat, others: set<nat>, off: nat, src: seq<byte>)
    requires Files.Trail(v, start, trail, inum, others, off, src) && |ids| == |trail| && Log.Distinct(ids)
    requires v.bmapstart == l.bmapstart && v.inodestart == l.inodestart
    ensures Consecutive(l, start, OpsOf(ids, trail))
  {
    hide LoggedAll;
    var ops := OpsOf(ids, trail);
    forall k: nat | k < |ops|
      ensures LoggedAll(l.bmapstart, l.inodestart, ImageAfter(start, ops, k), ops[k].after, ops[k].log)
    {
      SameBefore(start, ids, trail, k);
      assert Files.TrailAt(v, start, trail, k, inum, others, off, src);
    }
  }

  lemma TrailFile(v: Vol.Volume, g: Log.Geometry, l: Layout, start: Image, trail: seq<Files.Chunk>, n: nat, inum: nat,
                  others: set<nat>, off: nat, src: seq<byte>)
    requires Files.Trail(v, start, trail, inum, others, off, src) && n <= |trail|
    requires Laid(g, l, start, others) && Stored(start) && Files.Sane(start, start, inum, others)
    ensures var s := Files.Before(start, trail, n);
            && Arranged(g, l, s, inum) && inum < |s.inodes|
            && Files.Holds(ImageFile(s, inum), ImageFile(start, inum), off, src, Files.Upto(trail, n))
  {
    hide Files.Sane, Arranged, Stored, ImageFile, LoggedAll;
    TrailSizes(v, start, trail, n, inum, others, off, src);
    if n > 0 {
      assert Files.TrailAt(v, start, trail, n - 1, inum, others, off, src);
    } else {
      Files.HoldsNothing(ImageFile(start, inum), off, src);
    }
    SaneArranged(g, l, start, Files.Before(start, trail, n), inum, others);
  }

  /**
    Whatever run the transactions are part of, the file found after a crash is the old one with the bytes of
    the first n transactions written, and of the transactions that wrote exactly those are committed.
   */
  lemma FilewriteAfterCrash(v: Vol.Volume, g: Log.Geometry, d: Log.Disk, es: seq<Machine.Event>, l: Layout,
                            enc: Content -> Log.Sector, start: Image, ids: seq<Machine.OpId>, trail: seq<Files.Chunk>,
                            inum: nat, others: set<nat>, off: nat, src: seq<byte>, found: Image) returns (n: nat)
    requires Files.Trail(v, start, trail, inum, others, off, src) && |ids| == |trail| && Log.Distinct(ids)
    requires v.bmapstart == l.bmapstart && v.inodestart == l.inodestart
    requires Laid(g, l, start, others) && Stored(start) && Files.Sane(start, start, inum, others)
    requires Formatted(g, d) && Run(g, d, es).At? && HoldsImage(Log.HomeOf(g, d), g, l, enc, start) && Separates(enc)
    requires Serial(es, OpsOf(ids, trail), l, enc)
    requires HoldsImage(Log.Recovered(g, Run(g, d, es).c.s.disk), g, l, enc, found) && Found(start, found)
    ensures CommittedFirst(es, OpsOf(ids, trail), Run(g, d, es).c.a.committed, n) && n <= |trail|
    ensures inum < |start.inodes| && inum < |found.inodes|
    ensures Files.Holds(ImageFile(found, inum), ImageFile(start, inum), off, src, Files.Upto(trail, n))
  {
    hide Run, Log.Recovered, Log.HomeOf, Formatted, HoldsImage, Serial, Separates, ImageFile, Arranged;
    hide Files.Sane, Stored;
    var ops := OpsOf(ids, trail);
    TrailConsecutive(v, l, start, ids, trail, inum, others, off, src);
    forall k: nat | k <= |ops|
      ensures Arranged(g, l, ImageAfter(start, ops, k), inum) && Found(ImageAfter(start, ops, k), found)
    {
      SameBefore(start, ids, trail, k);
      TrailSizes(v, start, trail, k, inum, others, off, src);
      TrailFile(v, g, l, start, trail, k, inum, others, off, src);
    }
    n := FilesAfterCrash(g, d, es, l, enc, start, ops, found, inum);
    SameBefore(start, ids, trail, n);
    TrailFile(v, g, l, start, trail, n, inum, others, off, src);
  }

  /** A run of the transactions, from a disk that holds `start`, after which `found` is what the disk holds. */
  ghost predicate CrashesTo(g: Log.Geometry, d: Log.Disk, es: seq<Machine.Event>, l: Layout,
                            enc: Content -> Log.Sector, start: Image, ids: seq<Machine.OpId>, trail: seq<Files.Chunk>,
                            found: Image)
  {
    && |ids| == |trail| && Log.Distinct(ids) && Run(g, d, es).At? && Serial(es, OpsOf(ids, trail), l, enc)
    && HoldsImage(Log.Recovered(g, Run(g, d, es).c.s.disk), g, l, enc, found) && Found(start, found)
  }

  /** The file found is the old one with what some number of transactions wrote. */
  ghost predicate HoldsSome(start: Image, trail: seq<Files.Chunk>, found: Image, inum: nat, off: nat, src: seq<byte>) {
    && inum < |start.inodes| && inum < |found.inodes|
    && exists n: nat :: n <= |trail|
                        && Files.Holds(ImageFile(found, inum), ImageFile(start, inum), off, src, Files.Upto(trail, n))
  }

  /** filewrite on a volume the disk holds, and every crash during or after it. */
  method WriteThenCrash(v: Vol.Volume, f: Files.File, src: seq<byte>, ghost others: set<nat>, ghost g: Log.Geometry,
                        ghost d: Log.Disk, ghost l: Layout, ghost enc: Content -> Log.Sector)
    returns (r: Vol.Outcome, ghost trail: seq<Files.Chunk>)
    requires Files.Ready(v, f.ip, others) && f.off < TWO32 && |src| < TWO32
    requires v.bmapstart == l.bmapstart && v.inodestart == l.inodestart
    requires Laid(g, l, v.Now(), others) && Stored(v.Now()) && Separates(enc)
    requires Formatted(g, d) && HoldsImage(Log.HomeOf(g, d), g, l, enc, v.Now())
    modifies v, f.ip, f`off
    ensures forall es, ids, found :: CrashesTo(g, d, es, l, enc, old(v.Now()), ids, trail, found) ==>
              HoldsSome(old(v.Now()), trail, found, f.ip.inum, old(f.off), src)
    ensures r.Done? ==> Files.Upto(trail, |trail|) == |src|
  {
    hide Files.Ready, Laid, Stored, Separates, Formatted, HoldsImage, Log.HomeOf, Log.Recovered, Run, Serial;
    hide Files.Trail;
    ghost var start, off := v.Now(), f.off;
    ReadySane(v, f.ip, others);
    r, trail := Files.Filewrite(v, f, src, others);
    forall es, ids, found | CrashesTo(g, d, es, l, enc, start, ids, trail, found)
      ensures HoldsSome(start, trail, found, f.ip.inum, off, src)
    {
      var n := FilewriteAfterCrash(v, g, d, es, l, enc, start, ids, trail, f.ip.inum, others, off, src, found);
    }
  }

  lemma ReadySane(v: Vol.Volume, ip: Vol.Inode, others: set<nat>)
    requires Files.Ready(v, ip, others)
    ensures Files.Sane(v.Now(), v.Now(), ip.inum, others)
  {
  }

  /** A run with operation id the only writer, complete in the journal if it ended, after which the disk holds
      `found`. */
  ghost predicate AloneTo(g: Log.Geometry, d: Log.Disk, es: seq<Machine.Event>, id: Machine.OpId, l: Layout,
                          enc: Content -> Log.Sector, before: Image, after: Image, log: set<nat>, found: Image)
  {
    && Run(g, d, es).At? && (forall i :: 0 <= i < |es| && es[i].Write? ==> es[i].id == id)
    && (HasEnded(es, id) ==> Journal(es, id, l, enc, after, log))
    && HoldsImage(Log.Recovered(g, Run(g, d, es).c.s.disk), g, l, enc, found) && Found(before, found)
  }

  /** The old file, or if the operation ended the new one; the new one if it is committed. */
  ghost predicate OldOrNew(g: Log.Geometry, d: Log.Disk, es: seq<Machine.Event>, id: Machine.OpId, before: Image,
                           found: Image, inum: nat, off: nat, chunk: seq<byte>)
    requires Run(g, d, es).At? && inum < |before.inodes| && off <= |ImageFile(before, inum)|
  {
    && inum < |found.inodes|
    && (|| ImageFile(found, inum) == ImageFile(before, inum)
        || (HasEnded(es, id) && ImageFile(found, inum) == Replaced(ImageFile(before, inum), off, chunk)))
    && (id in Run(g, d, es).c.a.committed ==> ImageFile(found, inum) == Replaced(ImageFile(before, inum), off, chunk))
  }

  /** One transaction of filewrite on a volume the disk holds, and every crash during or after it. */
  method TransactionThenCrash(v: Vol.Volume, ip: Vol.Inode, chunk: seq<byte>, off: nat, ghost others: set<nat>,
                              ghost g: Log.Geometry, ghost d: Log.Disk, ghost l: Layout,
                              ghost enc: Content -> Log.Sector, ghost id: Machine.OpId)
    returns (w: Vol.Outcome)
    requires Files.Ready(v, ip, others) && off < TWO32 && |chunk| <= Files.CHUNK
    requires v.bmapstart == l.bmapstart && v.inodestart == l.inodestart
    requires Laid(g, l, v.Now(), others) && Stored(v.Now()) && Separates(enc)
    requires Formatted(g, d) && HoldsImage(Log.HomeOf(g, d), g, l, enc, v.Now())
    modifies v, ip
    ensures w.Done? ==>
              && ip.inum < |old(v.Now()).inodes| && off <= |ImageFile(old(v.Now()), ip.inum)|
              && forall es, found :: AloneTo(g, d, es, id, l, enc, old(v.Now()), v.Now(), v.logged, found) ==>
                   OldOrNew(g, d, es, id, old(v.Now()), found, ip.inum, off, chunk)
  {
    hide Files.Ready, Laid, Stored, Separates, Formatted, HoldsImage, Log.HomeOf, Log.Recovered, Run, Journal, HasEnded;
    hide Files.Sane, LoggedAll, Contents;
    ghost var before := v.Now();
    ReadySane(v, ip, others);
    Files.ReadyHas(v, ip, others);
    SaneArranged(g, l, before, before, ip.inum, others);
    w := Files.WriteTransaction(v, ip, chunk, off, others);
    if w.Done? {
      ReadySane(v, ip, others);
      Files.ReadyHas(v, ip, others);
      LoggedSizes(v.bmapstart, v.inodestart, before, v.Now(), v.logged);
      SaneFrom(before, v.Now(), ip.inum, others);
      SaneArranged(g, l, before, v.Now(), ip.inum, others);
      forall es, found | AloneTo(g, d, es, id, l, enc, before, v.Now(), v.logged, found)
        ensures OldOrNew(g, d, es, id, before, found, ip.inum, off, chunk)
      {
        FileAfterCrash(g, d, es, id, l, enc, before, v.Now(), v.logged, found, ip.inum, off, chunk);
      }
    }
  }

  lemma LoggedSizes(bmapstart: nat, inodestart: nat, before: Image, after: Image, log: set<nat>)
    requires LoggedAll(bmapstart, inodestart, before, after, log)
    ensures SameSizes(before, after)
  {
  }

  lemma SaneFrom(before: Image, after: Image, inum: nat, others: set<nat>)
    requires Files.Sane(after, after, inum, others) && SameSizes(before, after)
    requires inum < |before.inodes| && after.inodes == before.inodes[inum := after.inodes[inum]]
    ensures Files.Sane(before, after, inum, others)
  {
  }

  // ---- such runs exist -----------------------------------------------------------------------------------

  /** Operation id has begun, is alone, and has written the blocks `done` of `after`. */
  ghost predicate Writing(g: Log.Geometry, d: Log.Disk, es: seq<Machine.Event>, id: Machine.OpId, l: Layout,
                          enc: Content -> Log.Sector, after: Image, done: set<nat>)
  {
    && Run(g, d, es).At?
    && (forall b :: b in done ==> exists i :: 0 <= i < |es| && WritesAt(es[i], id, b))
    && (forall i :: 0 <= i < |es| && es[i].Write? ==>
          es[i].id == id && es[i].b < |after.disk| && es[i].data == enc(ContentAt(l, after, es[i].b)))
    && var c := Run(g, d, es).c;
       && c.s.phase.Running? && c.s.outstanding == 1 && |c.s.disk| == |d| && c.a.active == {id}
       && |c.s.lh| <= |done|
  }

  lemma WriteMore(g: Log.Geometry, d: Log.Disk, es: seq<Machine.Event>, id: Machine.OpId, l: Layout,
                  enc: Content -> Log.Sector, after: Image, done: set<nat>, b: nat)
    requires Formatted(g, d) && Writing(g, d, es, id, l, enc, after, done) && b !in done
    requires Log.IsHome(g, d, b) && b < |after.disk| && |done| < Log.Capacity(g)
    ensures Writing(g, d, es + [Machine.Write(id, b, enc(ContentAt(l, after, b)))], id, l, enc, after, done + {b})
  {
    var e := Machine.Write(id, b, enc(ContentAt(l, after, b)));
    var c, more := Run(g, d, es).c, es + [e];
    RunInv(g, d, es);
    assert Machine.Enabled(g, c, e);
    hide ContentAt, Machine.Inv, Machine.Rel;
    assert more[..|es|] == es;
    assert Run(g, d, more) == At(Next(g, c, e));
    forall x | x in done + {b} ensures exists i :: 0 <= i < |more| && WritesAt(more[i], id, x) {
      if x == b {
        assert WritesAt(more[|es|], id, b);
      } else {
        var i :| 0 <= i < |es| && WritesAt(es[i], id, x);
        assert WritesAt(more[i], id, x);
      }
    }
    assert |done + {b}| == |done| + 1;
  }

  lemma {:induction false} WriteAll(g: Log.Geometry, d: Log.Disk, es: seq<Machine.Event>, id: Machine.OpId, l: Layout,
                                    enc: Content -> Log.Sector, after: Image, done: set<nat>, rest: set<nat>)
    returns (es': seq<Machine.Event>)
    requires Formatted(g, d) && Writing(g, d, es, id, l, enc, after, done) && done !! rest
    requires |done| + |rest| <= Log.Capacity(g) && forall b :: b in rest ==> Log.IsHome(g, d, b) && b < |after.disk|
    ensures Writing(g, d, es', id, l, enc, after, done + rest)
    decreases rest
  {
    hide Writing, Formatted;
    if rest == {} {
      es' := es;
      assert done + rest == done;
    } else {
      var b :| b in rest;
      WriteMore(g, d, es, id, l, enc, after, done, b);
      assert |done + {b}| == |done| + 1 && |rest - {b}| == |rest| - 1;
      es' := WriteAll(g, d, es + [Machine.Write(id, b, enc(ContentAt(l, after, b)))], id, l, enc, after, done + {b},
                      rest - {b});
      assert done + {b} + (rest - {b}) == done + rest;
    }
  }

  lemma WriteStart(g: Log.Geometry, d: Log.Disk, id: Machine.OpId, l: Layout, enc: Content -> Log.Sector, after: Image)
    returns (es: seq<Machine.Event>)
    requires Formatted(g, d)
    ensures Writing(g, d, es, id, l, enc, after, {})
  {
    hide Run, Formatted;
    var boot := FillBoot(g, d);
    es := FillBegin(g, d, boot, {}, id);
    assert {} + {id} == {id};
  }

  /** end_op of the only operation, and then the commit. */
  lemma EndAndCommit(g: Log.Geometry, d: Log.Disk, es: seq<Machine.Event>, id: Machine.OpId, l: Layout,
                     enc: Content -> Log.Sector, after: Image, log: set<nat>) returns (es': seq<Machine.Event>)
    requires Formatted(g, d) && Writing(g, d, es, id, l, enc, after, log)
    ensures Run(g, d, es').At? && id in Run(g, d, es').c.a.committed && HasEnded(es', id)
    ensures es <= es' && forall i :: |es| <= i < |es'| ==> !es'[i].Write?
  {
    hide ContentAt, Machine.Inv, Machine.Rel, Log.HomeOf, Log.Recovered;
    var e := Machine.End(id);
    var c, ended := Run(g, d, es).c, es + [Machine.End(id)];
    assert ended[..|es|] == es && Run(g, d, ended) == At(Next(g, c, e));
    es' := ended;
    if c.s.lh != [] {
      var more := TicksCommit(g, d, ended, |c.s.lh|);
      es' := ended + more;
    }
    assert es'[|es|] == Machine.End(id);
  }

  /**
    A run of one transaction to its commit: the only writer, with the journal complete.  So the hypotheses
    above can be met, and the file found is then the new one.
   */
  lemma TransactionRuns(g: Log.Geometry, d: Log.Disk, id: Machine.OpId, l: Layout, enc: Content -> Log.Sector,
                        after: Image, log: set<nat>) returns (es: seq<Machine.Event>)
    requires Formatted(g, d) && |log| <= Log.Capacity(g)
    requires forall b :: b in log ==> Log.IsHome(g, d, b) && b < |after.disk|
    ensures Run(g, d, es).At? && id in Run(g, d, es).c.a.committed && HasEnded(es, id)
    ensures (forall i :: 0 <= i < |es| && es[i].Write? ==> es[i].id == id) && Journal(es, id, l, enc, after, log)
  {
    var start := WriteStart(g, d, id, l, enc, after);
    assert {} + log == log;
    var written := WriteAll(g, d, start, id, l, enc, after, {}, log);
    es := EndAndCommit(g, d, written, id, l, enc, after, log);
    hide Run, Formatted, ContentAt, HasEnded;
    assert forall i :: 0 <= i < |es| && es[i].Write? ==> i < |written| && es[i] == written[i];
    forall b | b in log ensures exists i :: 0 <= i < |es| && WritesAt(es[i], id, b) {
      var i :| 0 <= i < |written| && WritesAt(written[i], id, b);
      assert WritesAt(es[i], id, b);
    }
  }
}
