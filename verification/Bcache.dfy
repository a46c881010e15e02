/**
  bio.c: the buffer cache over the disk.  `latest` is the block map the cache stands for;
  a holder changes a buffer only together with log_write or bwrite.
 */
module Bcache {
  import opened Params
  import opened Wrappers
  import opened BcacheList
  import Log = LogSpec

  const DEV := 1                // the only disk iderw knows

  type Data = Log.Sector

  datatype Buf = Buf(dev: nat, blockno: nat, refcnt: nat, valid: bool, dirty: bool, data: Data)

  predicate Idle(b: Buf) { b.refcnt == 0 && !b.dirty }

  predicate Holds(b: Buf, dev: nat, blockno: nat) { b.dev == dev && b.blockno == blockno }

  /** At most one buffer per disk block, and only disk blocks are ever read or written. */
  ghost predicate Unique(buf: seq<Buf>, nblocks: nat) {
    && (forall a, b :: 0 <= a < b < |buf| && buf[a].dev != 0 ==> !Holds(buf[b], buf[a].dev, buf[a].blockno))
    && (forall b :: 0 <= b < |buf| ==>
          if buf[b].dev == 0 then !buf[b].valid && !buf[b].dirty && buf[b].refcnt == 0
          else buf[b].dev == DEV && buf[b].blockno < nblocks)
  }

  /** Buffers hold the latest contents; a block that is not dirty has them on the disk too. */
  ghost predicate Coherent(buf: seq<Buf>, disk: seq<Data>, latest: seq<Data>) {
    && |latest| == |disk|
    && (forall b :: 0 <= b < |buf| && buf[b].valid && buf[b].blockno < |latest| ==>
          buf[b].data == latest[buf[b].blockno])
    && (forall b :: 0 <= b < |buf| && buf[b].dirty ==> buf[b].valid)
    && (forall k: nat :: k < |disk| && k !in DirtyOf(buf) ==> disk[k] == latest[k])
  }

  class Cache {
    const nbuf: nat
    var buf: seq<Buf>
    var next: seq<nat>
    var prev: seq<nat>
    var disk: seq<Data>
    ghost var order: seq<nat>        // from most to least recently released
    ghost var latest: seq<Data>
    var header: seq<nat>             // log.lh: the blocks of the transaction
    ghost var images: seq<Log.Disk>  // the disk after each write so far

    /** Between commits: the pinned blocks are exactly those in the log header. */
    ghost predicate Pinned() reads this {
      Dirty() == Members(header) && Distinct(header)
    }

    ghost predicate Listed() reads this {
      && |buf| == nbuf && Chain(next, prev, nbuf, order)
      && |order| == nbuf && forall b: nat :: b < nbuf ==> b in order
    }

    /** The blocks pinned in the cache. */
    ghost function Dirty(): set<nat> reads this {
      DirtyOf(buf)
    }

    ghost predicate Valid() reads this {
      Listed() && |latest| == |disk| && Unique(buf, |disk|) && Coherent(buf, disk, latest)
    }

    /** binit: every buffer on the list, none in use. */
    constructor (nbuf: nat, disk: seq<Data>)
      ensures Valid() && Pinned() && header == [] && images == []
      ensures this.nbuf == nbuf && this.disk == disk && latest == disk
      ensures forall b :: 0 <= b < nbuf ==> Idle(buf[b])
    {
      this.nbuf := nbuf;
      this.disk := disk;
      latest, header, images := disk, [], [];
      buf := seq(nbuf, i => Buf(0, 0, 0, false, false, Zeros()));
      var n: seq<nat> := seq(nbuf + 1, i => nbuf);
      var p: seq<nat> := seq(nbuf + 1, i => nbuf);
      ghost var o: seq<nat> := [];
      var b: nat := 0;
      while b < nbuf
        invariant 0 <= b <= nbuf && |o| == b && Chain(n, p, nbuf, o)
        invariant forall a: nat :: a < nbuf ==> (a in o <==> a < b)
      {
        PushFront(n, p, nbuf, o, b);
        n, p := n[b := n[nbuf]], p[b := nbuf];
        p := p[n[nbuf] := b];
        n := n[nbuf := b];
        o := [b] + o;
        b := b + 1;
      }
      next, prev, order := n, p, o;
    }

    /** Find the buffer of a block, or recycle the least recently released idle one; None is a panic. */
    method Bget(dev: nat, blockno: nat) returns (r: Option<nat>)
      requires Valid() && dev != 0
      modifies this`buf
      ensures |buf| == nbuf && next == old(next) && prev == old(prev) && order == old(order)
      ensures r.Some? ==> r.value < nbuf
      ensures (exists b :: 0 <= b < nbuf && Holds(old(buf)[b], dev, blockno)) ==>
                r.Some? && Holds(old(buf)[r.value], dev, blockno)
                && buf == old(buf)[r.value := old(buf)[r.value].(refcnt := old(buf)[r.value].refcnt + 1)]
      ensures !(exists b :: 0 <= b < nbuf && Holds(old(buf)[b], dev, blockno)) ==>
                match r
                case None => buf == old(buf) && forall b :: 0 <= b < nbuf ==> !Idle(buf[b])
                case Some(b) =>
                  && LeastRecentIdle(old(buf), order, b)
                  && buf == old(buf)[b := Buf(dev, blockno, 1, false, false, old(buf)[b].data)]
    {
      var b := next[nbuf];
      ghost var i := 0;
      assert At(nbuf, order, 0) == nbuf;
      while b != nbuf
        invariant 0 <= i <= nbuf && b == At(nbuf, order, i + 1)
        invariant forall k :: 0 <= k < i ==> !Holds(buf[order[k]], dev, blockno)
        decreases nbuf - i
      {
        assert b == order[i];
        if Holds(buf[b], dev, blockno) {
          buf := buf[b := buf[b].(refcnt := buf[b].refcnt + 1)];
          return Some(b);
        }
        b := next[b];
        i := i + 1;
      }
      NoneListed(buf, order, nbuf, dev, blockno);
      b := prev[nbuf];
      i := nbuf;
      assert At(nbuf, order, nbuf + 1) == nbuf;
      while b != nbuf
        invariant 0 <= i <= nbuf && b == At(nbuf, order, i)
        invariant forall k :: i <= k < nbuf ==> !Idle(buf[order[k]])
        decreases i
      {
        assert b == order[i - 1];
        if Idle(buf[b]) {
          buf := buf[b := Buf(dev, blockno, 1, false, false, buf[b].data)];
          return Some(b);
        }
        b := prev[b];
        i := i - 1;
      }
      forall b: nat | b < nbuf ensures !Idle(buf[b]) {
        assert b in order;
      }
      return None;
    }

    /** A locked buffer with the latest contents of the block; None is a panic. */
    method Bread(dev: nat, blockno: nat) returns (r: Option<nat>)
      requires Valid() && dev != 0
      modifies this`buf
      ensures r.None? <==> !Cached(old(buf), dev, blockno)
                           && (dev != DEV || blockno >= |disk| || !HasIdle(old(buf)))
      ensures Cached(old(buf), dev, blockno) ==> SameBlocks(old(buf), buf)
      ensures r.Some? ==>
                && Valid() && r.value < nbuf && dev == DEV && blockno < |disk|
                && Holds(buf[r.value], dev, blockno) && buf[r.value].valid && buf[r.value].refcnt >= 1
                && buf[r.value].data == latest[blockno]
                && SameDirty(old(buf), buf) && Dirty() == old(Dirty()) && Taken(old(buf), buf, r.value)
    {
      hide Chain, Coherent, DirtyOf;
      DirtyIsValid(buf, disk, latest);
      r := Bget(dev, blockno);
      if r.None? { return; }
      var b := r.value;
      if !buf[b].valid {
        // iderw: read the block
        if dev != DEV || blockno >= |disk| { return None; }
        buf := buf[b := buf[b].(data := disk[blockno], valid := true)];
      }
      BreadKeeps(old(buf), b, buf[b], disk, latest);
      assert buf == old(buf)[b := buf[b]];
    }

    /** The holder has put `data` in the buffer and calls log_write: the buffer is pinned. */
    method LogWrite(b: nat, data: Data)
      requires Valid() && b < nbuf && buf[b].valid && buf[b].refcnt >= 1
      modifies this`buf, this`latest, this`header
      ensures buf == old(buf)[b := old(buf)[b].(data := data, dirty := true)]
      ensures header == if buf[b].blockno in old(header) then old(header) else old(header) + [buf[b].blockno]
      ensures old(Pinned()) ==> Pinned()
      ensures Valid() && latest == old(latest)[buf[b].blockno := data]
      ensures Dirty() == old(Dirty()) + {buf[b].blockno}
    {
      DirtyOfUpdate(buf, b, buf[b].(data := data, dirty := true));
      latest := latest[buf[b].blockno := data];
      if buf[b].blockno !in header { header := header + [buf[b].blockno]; }
      buf := buf[b := buf[b].(data := data, dirty := true)];
    }

    /** The holder has put `data` in the buffer and calls bwrite: disk and buffer agree. */
    method Bwrite(b: nat, data: Data)
      requires Valid() && b < nbuf && buf[b].valid && buf[b].refcnt >= 1
      modifies this`buf, this`latest, this`disk, this`images
      ensures buf == old(buf)[b := old(buf)[b].(data := data, dirty := false)]
      ensures Valid() && latest == old(latest)[buf[b].blockno := data]
      ensures disk == old(disk)[buf[b].blockno := data] && images == old(images) + [disk]
      ensures Dirty() == old(Dirty()) - {buf[b].blockno}
    {
      DirtyOfUpdate(buf, b, buf[b].(data := data, dirty := false));
      latest := latest[buf[b].blockno := data];
      disk := disk[buf[b].blockno := data];
      images := images + [disk];
      buf := buf[b := buf[b].(data := data, dirty := false, valid := true)];
    }

    /** Drop a reference; the last one moves the buffer to the front of the list. */
    method Brelse(b: nat)
      requires Valid() && b < nbuf && buf[b].refcnt >= 1
      modifies this`buf, this`next, this`prev, this`order
      ensures Valid() && SameDirty(old(buf), buf) && Dirty() == old(Dirty())
      ensures buf == old(buf)[b := old(buf)[b].(refcnt := old(buf)[b].refcnt - 1)]
      ensures buf[b].refcnt > 0 ==> order == old(order) && next == old(next) && prev == old(prev)
      ensures buf[b].refcnt == 0 ==> order == MovedToFront(old(order), b)
      ensures buf[b].refcnt == 0 ==> exists i :: 0 <= i < nbuf == |old(order)| && old(order)[i] == b
                                       && order == [b] + old(order)[..i] + old(order)[i + 1..]
    {
      DropReference(b);
      SameDirtyOf(old(buf), buf);
      if buf[b].refcnt == 0 {
        InFront(order, b);
        ToFront(b);
      }
    }

    /** No process holds a buffer. */
    ghost predicate Quiet() reads this { forall b :: 0 <= b < |buf| ==> buf[b].refcnt == 0 }

    /** One turn of write_log's loop; false is bget's panic. */
    method LogOne(slot: nat, k: nat) returns (ok: bool)
      requires Valid() && slot < |disk| && k in Dirty() && slot !in Dirty()
      modifies this`buf, this`disk, this`latest, this`next, this`prev, this`order, this`images
      ensures ok <==> Cached(old(buf), DEV, slot) || HasIdle(old(buf))
      ensures ok ==> Valid() && k < |disk| == old(|disk|) && latest == old(latest)[slot := old(latest)[k]]
      ensures ok ==> disk == old(disk)[slot := old(latest)[k]] && images == old(images) + [disk]
      ensures !ok ==> images == old(images)
      ensures ok ==> Dirty() == old(Dirty()) && IdleStays(old(buf), buf) && IdleStays(buf, old(buf))
      ensures ok && Cached(old(buf), DEV, slot) ==> SameBlocks(old(buf), buf)
    {
      hide Chain, Unique, Coherent, Cached, HasIdle, DirtyOf;
      var to := Bread(DEV, slot);
      if to.None? { return false; }
      ghost var s1 := buf;
      DirtyIsCached(buf, |disk|, k);
      var from := Bread(DEV, k);
      ghost var s2 := buf;
      Bwrite(to.value, buf[from.value].data);
      Brelse(from.value);
      Brelse(to.value);
      TakenAndReleased(old(buf), s1, s2, buf, to.value, from.value, to.value);
      CleanBuffer(old(buf), s1, to.value, slot);
      return true;
    }

    /** One turn of install_trans's loop; false is bget's panic. */
    method InstallOne(slot: nat, k: nat) returns (ok: bool)
      requires Valid() && slot < |disk| && k in Dirty() && slot !in Dirty()
      modifies this`buf, this`disk, this`latest, this`next, this`prev, this`order, this`images
      ensures ok <==> Cached(old(buf), DEV, slot) || HasIdle(old(buf))
      ensures ok ==> Valid() && k < |disk| == old(|disk|) && latest == old(latest)[k := old(latest)[slot]]
      ensures ok ==> disk == old(disk)[k := old(disk)[slot]] && images == old(images) + [disk]
      ensures !ok ==> images == old(images)
      ensures ok ==> Dirty() == old(Dirty()) - {k} && IdleStays(old(buf), buf)
      ensures ok && Cached(old(buf), DEV, slot) ==> SameBlocks(old(buf), buf)
    {
      hide Chain, Unique, Coherent, Cached, HasIdle, DirtyOf;
      CleanOnDisk(buf, disk, latest, slot);
      var lbuf := Bread(DEV, slot);
      if lbuf.None? { return false; }
      ghost var s1 := buf;
      DirtyIsCached(buf, |disk|, k);
      var dbuf := Bread(DEV, k);
      ghost var s2 := buf;
      Bwrite(dbuf.value, buf[lbuf.value].data);
      Brelse(lbuf.value);
      Brelse(dbuf.value);
      TakenAndReleased(old(buf), s1, s2, buf, lbuf.value, dbuf.value, dbuf.value);
      return true;
    }

    /** write_head: n and the block numbers over the header block. */
    method WriteHead(start: nat) returns (ok: bool)
      requires Valid() && start < |disk| && start !in Dirty() && |header| <= LOGSIZE
      modifies this`buf, this`disk, this`latest, this`next, this`prev, this`order, this`images
      ensures ok <==> Cached(old(buf), DEV, start) || HasIdle(old(buf))
      ensures ok ==> Valid() && |disk| == old(|disk|)
      ensures ok ==> latest == old(latest)[start := latest[start]] && disk == old(disk)[start := latest[start]]
      ensures ok ==> latest[start] == Log.HeadSector(old(disk)[start], header)
      ensures ok ==> latest[start][0] == |header| && forall i :: 0 < i < Log.WORDS ==>
                       latest[start][i] == if i <= |header| then header[i - 1] else old(latest)[start][i]
      ensures images == if ok then old(images) + [disk] else old(images)
      ensures ok ==> Dirty() == old(Dirty()) && IdleStays(old(buf), buf) && IdleStays(buf, old(buf))
      ensures ok && Cached(old(buf), DEV, start) ==> SameBlocks(old(buf), buf)
    {
      hide Chain, Unique, Coherent, Cached, HasIdle, DirtyOf;
      CleanOnDisk(buf, disk, latest, start);
      var r := Bread(DEV, start);
      if r.None? { return false; }
      ghost var s1 := buf;
      var hb: Data := buf[r.value].data[0 := |header|];
      var i := 0;
      while i < |header|
        invariant 0 <= i <= |header| && hb[0] == |header|
        invariant forall j :: 0 < j < Log.WORDS ==> hb[j] == if j <= i then header[j - 1] else latest[start][j]
      {
        hb := hb[i + 1 := header[i]];
        i := i + 1;
      }
      Bwrite(r.value, hb);
      Brelse(r.value);
      CleanBuffer(old(buf), s1, r.value, start);
      return true;
    }

    /** Copy every pinned block to its slot. */
    method WriteLog(start: nat) returns (ok: bool)
      requires Valid() && Pinned() && LogArea(header, start, |disk|)
      modifies this`buf, this`disk, this`latest, this`next, this`prev, this`order, this`images
      ensures ok <==> header == [] || HasIdle(old(buf)) || SlotsCached(old(buf), start + 1, |header|)
      ensures ok ==> Valid() && |disk| == old(|disk|) && Dirty() == old(Dirty()) && IdleStays(old(buf), buf)
      ensures ok && !HasIdle(old(buf)) ==> SameBlocks(old(buf), buf) && !HasIdle(buf)
      ensures ok ==> SlotsHold(latest, header, start, |header|) && SameOutside(old(latest), latest, start + 1, |header|)
      ensures Follows(old(images), images, start, header, old(disk), old(latest), 0)
      ensures |images| <= |old(images)| + |header|
      ensures ok ==> |images| == |old(images)| + |header|
      ensures ok ==> disk == Image(start, header, old(disk), old(latest), |header|)
    {
      hide Chain, Unique, Coherent, Cached, DirtyOf, Image, Follows;
      FollowsOne(images, start, header, disk, latest, 0);
      NoWrites(start, header, disk, latest);
      var tail := 0;
      while tail < |header|
        invariant 0 <= tail <= |header| && Valid() && |disk| == old(|disk|) && Dirty() == old(Dirty())
        invariant IdleStays(old(buf), buf) && IdleStays(buf, old(buf))
        invariant !HasIdle(old(buf)) ==> SameBlocks(old(buf), buf) && SlotsCached(old(buf), start + 1, tail)
        invariant SlotsHold(latest, header, start, tail) && SameOutside(old(latest), latest, start + 1, tail)
        invariant Follows(old(images), images, start, header, old(disk), old(latest), 0)
        invariant |images| == |old(images)| + tail && disk == Image(start, header, old(disk), old(latest), tail)
      {
        ghost var buf1, latest1 := buf, latest;
        SlotIsFree(header, start, |disk|, tail);
        SlotImage(start, header, old(disk), old(latest), tail);
        FollowsOne(images, start, header, old(disk), old(latest), tail);
        ghost var before := images;
        ok := LogOne(start + tail + 1, header[tail]);
        if !HasIdle(old(buf)) {
          CachedAlike(old(buf), buf1, start + tail + 1);
        }
        if !ok { return; }
        FollowsOn(old(images), before, images, start, header, old(disk), old(latest), 0);
        tail := tail + 1;
      }
      return true;
    }

    /** Copy every slot home and unpin the block. */
    method InstallTrans(start: nat, ghost d0: Log.Disk, ghost want: Log.Disk) returns (ok: bool)
      requires |d0| == |want| == |disk| && LogArea(header, start, |disk|)
      requires disk == Image(start, header, d0, want, |header| + 1)
      requires Valid() && Pinned() && LogArea(header, start, |disk|) && SlotsHold(latest, header, start, |header|)
      modifies this`buf, this`disk, this`latest, this`next, this`prev, this`order, this`images
      ensures HasIdle(old(buf)) || SlotsCached(old(buf), start + 1, |header|) ==> ok
      ensures ok ==> Valid() && |disk| == old(|disk|) && Dirty() == {}
      ensures ok ==> latest == old(latest) && IdleStays(old(buf), buf)
      ensures ok && SlotsCached(old(buf), start + 1, |header|) ==> SameBlocks(old(buf), buf)
      ensures Follows(old(images), images, start, header, d0, want, |header| + 1)
      ensures ok ==> |images| == |old(images)| + |header| && disk == Image(start, header, d0, want, 2 * |header| + 1)
    {
      hide Chain, Unique, Coherent, Cached, DirtyOf, Image, Follows;
      FollowsOne(images, start, header, d0, want, |header| + 1);
      ghost var cached := SlotsCached(old(buf), start + 1, |header|);
      var tail := 0;
      while tail < |header|
        invariant 0 <= tail <= |header| && Valid() && |disk| == old(|disk|) && latest == old(latest)
        invariant Dirty() == Members(header) - Members(header[..tail])
        invariant IdleStays(old(buf), buf) && (cached ==> SameBlocks(old(buf), buf))
        invariant Follows(old(images), images, start, header, d0, want, |header| + 1)
        invariant |images| == |old(images)| + tail && disk == Image(start, header, d0, want, |header| + 1 + tail)
      {
        SlotIsFree(header, start, |disk|, tail);
        StillPinned(header, tail);
        if cached {
          CachedAlike(old(buf), buf, start + tail + 1);
        }
        HomeImage(start, header, d0, want, tail);
        FollowsOne(images, start, header, d0, want, |header| + 1 + tail);
        ghost var before := images;
        ok := InstallOne(start + tail + 1, header[tail]);
        if !ok { return; }
        FollowsOn(old(images), before, images, start, header, d0, want, |header| + 1);
        assert latest == old(latest);
        tail := tail + 1;
      }
      assert header[..|header|] == header;
      return true;
    }

    /** The first half of commit(): the slots and then the header, whose write commits the transaction. */
    method Seal(start: nat) returns (ok: bool)
      requires Valid() && Pinned() && LogArea(header, start, |disk|) && header != []
      modifies this`buf, this`disk, this`latest, this`next, this`prev, this`order, this`images
      ensures ok <==> HasIdle(old(buf)) || SlotsCached(old(buf), start, |header| + 1)
      ensures ok ==> Valid() && |disk| == old(|disk|) && Dirty() == old(Dirty())
      ensures ok ==> if HasIdle(old(buf)) then HasIdle(buf) else SameBlocks(old(buf), buf)
      ensures ok ==> SlotsHold(latest, header, start, |header|) && SameOutside(old(latest), latest, start, |header| + 1)
      ensures Follows(old(images), images, start, header, old(disk), old(latest), 0)
      ensures |images| <= |old(images)| + |header| + 1
      ensures ok ==> |images| == |old(images)| + |header| + 1
                     && disk == Image(start, header, old(disk), old(latest), |header| + 1)
      ensures ok ==> disk[start][0] == |header| && disk[start][1..1 + |header|] == header
    {
      hide Chain, Unique, Coherent, Cached, DirtyOf, HasIdle, SlotsHold, SlotsCached, SameBlocks, IdleStays,
           Follows, Image;
      ghost var d0, want := disk, latest;
      SlotIsFree(header, start, |disk|, 0);
      ok := WriteLog(start);
      SlotsSplit(old(buf), start, |header|);
      if !ok { return; }
      ghost var buf1, latest1, images1 := buf, latest, images;
      HeadImages(start, header, d0, want);
      FollowsOne(images1, start, header, d0, want, |header|);
      ok := WriteHead(start);
      if !HasIdle(old(buf)) {
        AllAlike(old(buf), buf1, start, |header| + 1);
      }
      IdleSomewhere(old(buf), buf1);
      if !ok { return; }
      FollowsOn(old(images), images1, images, start, header, d0, want, 0);
      HeadApart(latest1, latest, header, start);
      StaysOn(old(buf), buf1, buf);
      IdleSomewhere(old(buf), buf);
    }

    /**
      commit(): the transaction goes to the log, the header, its home and out of the header again.
      It panics for want of a buffer unless one is idle or the header block and every slot have one.
     */
    method Commit(start: nat) returns (ok: bool)
      requires Valid() && Pinned() && LogArea(header, start, |disk|)
      modifies this
      ensures ok <==> old(header) == [] || HasIdle(old(buf)) || SlotsCached(old(buf), start, |old(header)| + 1)
      ensures old(Quiet()) ==> (ok <==> |old(header)| < nbuf || old(header) == [])
      ensures ok ==> Valid() && Pinned() && header == [] && Dirty() == {} && disk == latest
      ensures ok ==> SameOutside(old(latest), latest, start, |old(header)| + 1)
      ensures Follows(old(images), images, start, old(header), old(disk), old(latest), 0)
      ensures old(header) == [] ==> disk == old(disk)
      ensures |images| <= |old(images)| + 2 * |old(header)| + 2
      ensures ok && old(header) != [] ==> |images| == |old(images)| + 2 * |old(header)| + 2 && disk[start][0] == 0
    {
      hide Chain, Unique, Coherent, Cached, DirtyOf, HasIdle, SlotsHold, SlotsCached, SameBlocks, IdleStays,
           Follows, Image, SameOutside;
      ghost var lh, d0, want := header, disk, latest;
      FollowsOne(images, start, lh, d0, want, 0);
      if header == [] {
        StillOutside(want, want, want, start, 1);
        CleanIsLatest(buf, disk, latest);
        return true;
      }
      FitsExactly(buf, header, start, |disk|);
      ok := Seal(start);
      if !ok { return; }
      ghost var buf2, images2 := buf, images;
      SlotsSplit(old(buf), start, |lh|);
      if !HasIdle(old(buf)) {
        AllAlike(old(buf), buf2, start, |header| + 1);
      }
      ok := InstallTrans(start, d0, want);
      FollowsOn(old(images), images2, images, start, lh, d0, want, 0);
      ghost var images3, latest3 := images, latest;
      FollowsOne(images3, start, lh, d0, want, 2 * |lh| + 1);
      HeadImages(start, lh, d0, want);
      header := [];
      StaysOn(old(buf), buf2, buf);
      IdleSomewhere(buf2, buf);
      if !HasIdle(old(buf)) {
        CachedAlike(old(buf), buf, start);
      }
      ok := WriteHead(start);
      FollowsOn(old(images), images3, images, start, lh, d0, want, 0);
      StillOutside(want, latest3, latest, start, |lh| + 1);
      CleanIsLatest(buf, disk, latest);
    }

    method DropReference(b: nat)
      requires Valid() && b < nbuf && buf[b].refcnt >= 1
      modifies this`buf
      ensures Valid() && SameDirty(old(buf), buf)
      ensures buf == old(buf)[b := old(buf)[b].(refcnt := old(buf)[b].refcnt - 1)]
    {
      hide Chain;
      SameDirtyOf(buf, buf[b := buf[b].(refcnt := buf[b].refcnt - 1)]);
      buf := buf[b := buf[b].(refcnt := buf[b].refcnt - 1)];
    }

    /** The six pointer assignments at the end of brelse. */
    method ToFront(b: nat)
      requires Listed() && b < nbuf
      modifies this`next, this`prev, this`order
      ensures Listed() && order == MovedToFront(old(order), b)
    {
      hide Chain, MovedToFront;
      SixAssignments(next, prev, nbuf, order, b);
      prev := prev[next[b] := prev[b]];
      next := next[prev[b] := next[b]];
      next := next[b := next[nbuf]];
      prev := prev[b := nbuf];
      prev := prev[next[nbuf] := b];
      next := next[nbuf := b];
      order := MovedToFront(order, b);
    }
  }

  ghost predicate HasIdle(buf: seq<Buf>) { exists b :: 0 <= b < |buf| && Idle(buf[b]) }

  /** Whatever was idle is idle still. */
  ghost predicate IdleStays(buf: seq<Buf>, buf': seq<Buf>) {
    |buf| == |buf'| && forall b :: 0 <= b < |buf| && Idle(buf[b]) ==> Idle(buf'[b])
  }

  /** Buffer b has one more holder and is as dirty as before; no other buffer changed. */
  ghost predicate Taken(buf: seq<Buf>, buf': seq<Buf>, b: nat) {
    && b < |buf| == |buf'| && buf' == buf[b := buf'[b]]
    && buf'[b].refcnt == buf[b].refcnt + 1 && buf'[b].dirty == buf[b].dirty
  }

  function Zeros(): Data { seq(Log.WORDS, i => 0) }

  /** The list fits struct logheader, and there is a header block and a slot for each block, apart from them. */
  ghost predicate LogArea(lh: seq<nat>, start: nat, nblocks: nat) {
    && |lh| <= LOGSIZE && start + |lh| < nblocks
    && forall i :: 0 <= i < |lh| ==> lh[i] < nblocks && !(start <= lh[i] <= start + |lh|)
  }

  ghost predicate SlotsCached(buf: seq<Buf>, first: nat, n: nat) {
    forall j :: first <= j < first + n ==> Cached(buf, DEV, j)
  }

  /** Each of the first n slots holds what its block holds. */
  ghost predicate SlotsHold(latest: seq<Data>, lh: seq<nat>, start: nat, n: nat)
    requires n <= |lh| && LogArea(lh, start, |latest|)
  {
    forall i :: 0 <= i < n ==> latest[start + 1 + i] == latest[lh[i]]
  }

  ghost predicate SameOutside(latest: seq<Data>, latest': seq<Data>, first: nat, n: nat) {
    |latest'| == |latest| && forall k :: 0 <= k < |latest| && !(first <= k < first + n) ==> latest'[k] == latest[k]
  }

  /** The disk after j writes of a commit of lh: the slots, the header, the homes, the header again. */
  ghost function Image(start: nat, lh: seq<nat>, d: Log.Disk, want: Log.Disk, j: nat): (r: Log.Disk)
    requires LogArea(lh, start, |d|) && |want| == |d|
    ensures |r| == |d|
  {
    if j == 0 then d else
    var p := Image(start, lh, d, want, j - 1);
    if j <= |lh| then p[start + j := want[lh[j - 1]]]
    else if j == |lh| + 1 then p[start := Log.HeadSector(p[start], lh)]
    else if j <= 2 * |lh| + 1 then p[lh[j - |lh| - 2] := p[start + j - |lh| - 1]]
    else p[start := Log.HeadSector(p[start], [])]
  }

  /** The disks written since `before` are those of the commit, from its write number `from` on. */
  ghost predicate Follows(before: seq<Log.Disk>, after: seq<Log.Disk>, start: nat, lh: seq<nat>, d: Log.Disk,
                          want: Log.Disk, from: nat)
    requires LogArea(lh, start, |d|) && |want| == |d|
  {
    && before <= after
    && forall j :: |before| <= j < |after| ==> after[j] == Image(start, lh, d, want, from + 1 + j - |before|)
  }

  lemma FollowsOne(before: seq<Log.Disk>, start: nat, lh: seq<nat>, d: Log.Disk, want: Log.Disk, from: nat)
    requires LogArea(lh, start, |d|) && |want| == |d|
    ensures Follows(before, before, start, lh, d, want, from)
    ensures Follows(before, before + [Image(start, lh, d, want, from + 1)], start, lh, d, want, from)
  {
  }

  lemma FollowsOn(before: seq<Log.Disk>, mid: seq<Log.Disk>, after: seq<Log.Disk>, start: nat, lh: seq<nat>,
                  d: Log.Disk, want: Log.Disk, from: nat)
    requires LogArea(lh, start, |d|) && |want| == |d| && |mid| >= |before|
    requires Follows(before, mid, start, lh, d, want, from)
    requires Follows(mid, after, start, lh, d, want, from + |mid| - |before|)
    ensures Follows(before, after, start, lh, d, want, from)
  {
    hide Image;
  }

  lemma NoWrites(start: nat, lh: seq<nat>, d: Log.Disk, want: Log.Disk)
    requires LogArea(lh, start, |d|) && |want| == |d|
    ensures Image(start, lh, d, want, 0) == d
  {
  }

  lemma SlotImage(start: nat, lh: seq<nat>, d: Log.Disk, want: Log.Disk, i: nat)
    requires LogArea(lh, start, |d|) && |want| == |d| && i < |lh|
    ensures Image(start, lh, d, want, i + 1) == Image(start, lh, d, want, i)[start + i + 1 := want[lh[i]]]
  {
  }

  lemma HomeImage(start: nat, lh: seq<nat>, d: Log.Disk, want: Log.Disk, i: nat)
    requires LogArea(lh, start, |d|) && |want| == |d| && i < |lh|
    ensures var p := Image(start, lh, d, want, |lh| + 1 + i);
            Image(start, lh, d, want, |lh| + 2 + i) == p[lh[i] := p[start + i + 1]]
  {
  }

  lemma HeadImages(start: nat, lh: seq<nat>, d: Log.Disk, want: Log.Disk)
    requires LogArea(lh, start, |d|) && |want| == |d|
    ensures var p := Image(start, lh, d, want, |lh|);
            Image(start, lh, d, want, |lh| + 1) == p[start := Log.HeadSector(p[start], lh)]
    ensures var p := Image(start, lh, d, want, 2 * |lh| + 1);
            Image(start, lh, d, want, 2 * |lh| + 2) == p[start := Log.HeadSector(p[start], [])]
  {
  }

  lemma CleanOnDisk(buf: seq<Buf>, disk: seq<Data>, latest: seq<Data>, k: nat)
    requires Coherent(buf, disk, latest) && k < |disk| && k !in DirtyOf(buf)
    ensures disk[k] == latest[k]
  {
  }

  lemma StillPinned(lh: seq<nat>, tail: nat)
    requires Distinct(lh) && tail < |lh|
    ensures lh[tail] !in Members(lh[..tail])
    ensures Members(lh[..tail + 1]) == Members(lh[..tail]) + {lh[tail]}
  {
    assert lh[..tail + 1] == lh[..tail] + [lh[tail]];
  }

  lemma SlotsSplit(buf: seq<Buf>, start: nat, n: nat)
    ensures SlotsCached(buf, start, n + 1) <==> Cached(buf, DEV, start) && SlotsCached(buf, start + 1, n)
  {
  }

  lemma AllAlike(buf: seq<Buf>, buf': seq<Buf>, first: nat, n: nat)
    requires SameBlocks(buf, buf')
    ensures SlotsCached(buf, first, n) <==> SlotsCached(buf', first, n)
    ensures n > 0 ==> (SlotsCached(buf, first + 1, n - 1) <==> SlotsCached(buf', first + 1, n - 1))
    ensures Cached(buf, DEV, first) <==> Cached(buf', DEV, first)
  {
    forall j: nat | first <= j < first + n || j == first ensures Cached(buf, DEV, j) <==> Cached(buf', DEV, j) {
      CachedAlike(buf, buf', j);
    }
  }

  lemma IdleSomewhere(buf: seq<Buf>, buf': seq<Buf>)
    requires IdleStays(buf, buf')
    ensures HasIdle(buf) ==> HasIdle(buf')
  {
  }

  lemma StillOutside(latest: seq<Data>, latest1: seq<Data>, latest2: seq<Data>, start: nat, n: nat)
    ensures SameOutside(latest, latest, start, n)
    ensures n > 0 && start < |latest2| == |latest1| && latest2 == latest1[start := latest2[start]] ==>
              (SameOutside(latest, latest1, start, n) ==> SameOutside(latest, latest2, start, n))
  {
  }

  lemma StaysOn(a: seq<Buf>, b: seq<Buf>, c: seq<Buf>)
    ensures IdleStays(a, b) && IdleStays(b, c) ==> IdleStays(a, c)
    ensures SameBlocks(a, b) && SameBlocks(b, c) ==> SameBlocks(a, c)
  {
  }

  lemma HeadApart(latest: seq<Data>, latest': seq<Data>, lh: seq<nat>, start: nat)
    requires LogArea(lh, start, |latest|) && SlotsHold(latest, lh, start, |lh|)
    requires SameOutside(latest, latest', start, 1)
    ensures SlotsHold(latest', lh, start, |lh|)
  {
  }

  // ---- how many buffers a commit needs -----------------------------------------------------------

  lemma {:induction false} MembersCount(s: seq<nat>)
    ensures |Members(s)| <= |s|
    ensures Distinct(s) ==> |Members(s)| == |s|
  {
    if s == [] {
    } else {
      var front := s[..|s| - 1];
      MembersCount(front);
      assert s == front + [s[|s| - 1]];
      assert Members(s) == Members(front) + {s[|s| - 1]};
      if Distinct(s) { assert s[|s| - 1] !in front; }
    }
  }

  lemma OneMoreBuffer(buf: seq<Buf>, n: nat, nblocks: nat)
    requires n < |buf| && Unique(buf, nblocks)
    ensures DirtyOf(buf[..n + 1]) == DirtyOf(buf[..n]) + if buf[n].dirty then {buf[n].blockno} else {}
    ensures buf[n].dirty ==> buf[n].blockno !in DirtyOf(buf[..n])
  {
    var front, more := buf[..n], buf[..n + 1];
    forall k | k in DirtyOf(front) ensures k in DirtyOf(more) {
      var b :| 0 <= b < n && front[b].dirty && front[b].blockno == k;
      assert more[b] == front[b];
    }
    if buf[n].dirty { assert more[n].dirty; }
    forall b | 0 <= b < n && buf[b].dirty ensures buf[n].dirty ==> buf[b].blockno != buf[n].blockno {
      assert buf[b].dev != 0;
    }
  }

  function IdleCount(buf: seq<Buf>, n: nat): nat
    requires n <= |buf|
  {
    if n == 0 then 0 else IdleCount(buf, n - 1) + if Idle(buf[n - 1]) then 1 else 0
  }

  lemma {:induction false} NoneIdle(buf: seq<Buf>, n: nat)
    requires n <= |buf|
    ensures IdleCount(buf, n) == 0 <==> forall b :: 0 <= b < n ==> !Idle(buf[b])
  {
    if n > 0 {
      NoneIdle(buf, n - 1);
    }
  }

  /** With nobody holding a buffer, the pinned blocks are as many as the buffers that are not idle. */
  lemma {:induction false} PinnedCount(buf: seq<Buf>, n: nat, nblocks: nat)
    requires n <= |buf| && Unique(buf, nblocks) && forall b :: 0 <= b < |buf| ==> buf[b].refcnt == 0
    ensures |DirtyOf(buf[..n])| + IdleCount(buf, n) == n
  {
    if n == 0 {
      assert DirtyOf(buf[..0]) == {};
    } else {
      hide Unique, DirtyOf;
      PinnedCount(buf, n - 1, nblocks);
      OneMoreBuffer(buf, n - 1, nblocks);
    }
  }

  /** From a quiet state a commit fits exactly when the transaction is smaller than the cache. */
  lemma FitsExactly(buf: seq<Buf>, lh: seq<nat>, start: nat, nblocks: nat)
    requires Unique(buf, nblocks) && DirtyOf(buf) == Members(lh) && Distinct(lh) && LogArea(lh, start, nblocks)
    ensures (forall b :: 0 <= b < |buf| ==> buf[b].refcnt == 0) ==>
              (HasIdle(buf) || SlotsCached(buf, start, |lh| + 1) <==> |lh| < |buf|)
  {
    if forall b :: 0 <= b < |buf| ==> buf[b].refcnt == 0 {
      assert buf[..|buf|] == buf;
      PinnedCount(buf, |buf|, nblocks);
      NoneIdle(buf, |buf|);
      MembersCount(lh);
      if !HasIdle(buf) {
        HeaderNotCached(buf, lh, start, nblocks);
      }
    }
  }

  /** bread, log_write and brelse of one more block. */
  method PinOne(cache: Cache, blockno: nat, data: Data)
    requires cache.Valid() && cache.Pinned() && cache.Quiet() && |cache.header| < cache.nbuf
    requires blockno < |cache.disk| && blockno !in cache.header
    modifies cache
    ensures cache.Valid() && cache.Pinned() && cache.Quiet() && cache.disk == old(cache.disk)
    ensures cache.header == old(cache.header) + [blockno]
  {
    hide Chain, Unique, Coherent, Cached, DirtyOf, HasIdle, SameDirty, SameBlocks;
    SomeIdle(cache.buf, cache.header, |cache.disk|);
    var b := cache.Bread(DEV, blockno);
    cache.LogWrite(b.value, data);
    cache.Brelse(b.value);
  }

  /** NBUF is LOGSIZE: a transaction as large as the log lets it be pins every buffer, and its commit panics. */
  method FullTransaction() returns (cache: Cache, ok: bool, ghost lh: seq<nat>)
    ensures fresh(cache) && cache.nbuf == NBUF && |lh| == LOGSIZE && !ok
  {
    hide Chain, Unique, Coherent, Cached, DirtyOf, HasIdle, SameDirty, SameBlocks;
    cache := new Cache(NBUF, seq(2 * LOGSIZE + 2, i => Zeros()));
    var n := 0;
    while n < LOGSIZE
      modifies cache
      invariant 0 <= n <= LOGSIZE && fresh(cache) && cache.nbuf == NBUF && |cache.disk| == 2 * LOGSIZE + 2
      invariant cache.Valid() && cache.Pinned() && cache.Quiet() && |cache.header| == n
      invariant forall i :: 0 <= i < n ==> cache.header[i] == LOGSIZE + 2 + i
    {
      PinOne(cache, LOGSIZE + 2 + n, Zeros()[0 := n]);
      n := n + 1;
    }
    lh := cache.header;
    ok := cache.Commit(1);
  }

  lemma SomeIdle(buf: seq<Buf>, lh: seq<nat>, nblocks: nat)
    requires Unique(buf, nblocks) && DirtyOf(buf) == Members(lh) && Distinct(lh) && |lh| < |buf|
    requires forall b :: 0 <= b < |buf| ==> buf[b].refcnt == 0
    ensures HasIdle(buf)
  {
    assert buf[..|buf|] == buf;
    PinnedCount(buf, |buf|, nblocks);
    NoneIdle(buf, |buf|);
    MembersCount(lh);
  }

  lemma HeaderNotCached(buf: seq<Buf>, lh: seq<nat>, start: nat, nblocks: nat)
    requires DirtyOf(buf) == Members(lh) && LogArea(lh, start, nblocks)
    requires forall b :: 0 <= b < |buf| ==> buf[b].dirty
    ensures !Cached(buf, DEV, start)
  {
    forall b | 0 <= b < |buf| ensures buf[b].blockno != start {
      assert buf[b].blockno in DirtyOf(buf);
    }
  }

  lemma SlotIsFree(lh: seq<nat>, start: nat, nblocks: nat, tail: nat)
    requires LogArea(lh, start, nblocks) && tail < |lh|
    ensures start + tail + 1 !in Members(lh) && start !in Members(lh) && lh[tail] in Members(lh)
  {
  }

  lemma CachedAlike(buf: seq<Buf>, buf': seq<Buf>, k: nat)
    requires SameBlocks(buf, buf')
    ensures Cached(buf, DEV, k) <==> Cached(buf', DEV, k)
  {
    forall b | 0 <= b < |buf| ensures Holds(buf[b], DEV, k) <==> Holds(buf'[b], DEV, k) {
    }
  }

  lemma DirtyIsCached(buf: seq<Buf>, nblocks: nat, k: nat)
    requires Unique(buf, nblocks) && k in DirtyOf(buf)
    ensures Cached(buf, DEV, k) && k < nblocks
  {
    var b :| 0 <= b < |buf| && buf[b].dirty && buf[b].blockno == k;
    assert Holds(buf[b], DEV, k);
  }

  lemma CleanBuffer(buf: seq<Buf>, buf1: seq<Buf>, b: nat, slot: nat)
    requires Taken(buf, buf1, b) && buf1[b].blockno == slot && slot !in DirtyOf(buf1)
    ensures !buf[b].dirty && !buf1[b].dirty
  {
    assert buf1[b].dirty ==> slot in DirtyOf(buf1);
  }

  /** Two buffers taken, one of them (w) written and cleaned, both released. */
  lemma TakenAndReleased(buf: seq<Buf>, buf1: seq<Buf>, buf2: seq<Buf>, buf': seq<Buf>, a: nat, c: nat, w: nat)
    requires Taken(buf, buf1, a) && Taken(buf1, buf2, c) && a != c && (w == a || w == c) && |buf'| == |buf|
    requires forall b :: 0 <= b < |buf| && b != a && b != c ==> buf'[b] == buf2[b]
    requires forall b :: b == a || b == c ==>
               buf'[b].refcnt == buf2[b].refcnt - 1 && buf'[b].dirty == (b != w && buf2[b].dirty)
    ensures IdleStays(buf, buf')
    ensures !buf[w].dirty ==> IdleStays(buf', buf)
  {
  }

  ghost function Members(s: seq<nat>): set<nat> { set k | k in s }

  /** Some buffer stands for the block. */
  ghost predicate Cached(buf: seq<Buf>, dev: nat, blockno: nat) {
    exists b :: 0 <= b < |buf| && Holds(buf[b], dev, blockno)
  }

  /** Every buffer stands for the block it stood for. */
  ghost predicate SameBlocks(buf: seq<Buf>, buf': seq<Buf>) {
    |buf| == |buf'| && forall b :: 0 <= b < |buf| ==> buf'[b].dev == buf[b].dev && buf'[b].blockno == buf[b].blockno
  }

  lemma CleanIsLatest(buf: seq<Buf>, disk: seq<Data>, latest: seq<Data>)
    requires Coherent(buf, disk, latest)
    ensures DirtyOf(buf) == {} ==> disk == latest
  {
  }

  ghost function DirtyOf(buf: seq<Buf>): set<nat> {
    set b | 0 <= b < |buf| && buf[b].dirty :: buf[b].blockno
  }

  lemma SameDirtyOf(buf: seq<Buf>, buf': seq<Buf>)
    requires SameDirty(buf, buf')
    ensures DirtyOf(buf') == DirtyOf(buf)
  {
  }

  /** Changing one buffer, whose block no other dirty buffer holds. */
  lemma DirtyOfUpdate(buf: seq<Buf>, b: nat, c: Buf)
    requires b < |buf| && c.blockno == buf[b].blockno
    requires forall a :: 0 <= a < |buf| && a != b && buf[a].dirty ==> buf[a].blockno != c.blockno
    ensures DirtyOf(buf[b := c]) == if c.dirty then DirtyOf(buf) + {c.blockno} else DirtyOf(buf) - {c.blockno}
  {
    var buf' := buf[b := c];
    forall k | k in DirtyOf(buf) && k != c.blockno ensures k in DirtyOf(buf') {
      var a :| 0 <= a < |buf| && buf[a].dirty && buf[a].blockno == k;
      assert buf'[a] == buf[a];
    }
    if c.dirty { assert buf'[b].dirty; }
  }

  /** b is idle, and every idle buffer was released later. */
  ghost predicate LeastRecentIdle(buf: seq<Buf>, order: seq<nat>, b: nat) {
    exists i :: 0 <= i < |order| && order[i] == b && b < |buf| && Idle(buf[b])
                && forall k :: i < k < |order| && order[k] < |buf| ==> !Idle(buf[order[k]])
  }

  lemma NoneListed(buf: seq<Buf>, order: seq<nat>, nbuf: nat, dev: nat, blockno: nat)
    requires |buf| == nbuf == |order| && forall b: nat :: b < nbuf ==> b in order
    requires forall k :: 0 <= k < |order| && order[k] < nbuf ==> !Holds(buf[order[k]], dev, blockno)
    ensures forall b :: 0 <= b < nbuf ==> !Holds(buf[b], dev, blockno)
  {
    forall b: nat | b < nbuf ensures !Holds(buf[b], dev, blockno) {
      assert b in order;
    }
  }

  /** The same blocks are dirty, with the same contents. */
  ghost predicate SameDirty(buf: seq<Buf>, buf': seq<Buf>) {
    && |buf| == |buf'|
    && forall b :: 0 <= b < |buf| && (buf[b].dirty || buf'[b].dirty) ==>
         buf'[b].dirty && buf[b].dirty && buf'[b].blockno == buf[b].blockno && buf'[b].data == buf[b].data
  }

  function MovedToFront(order: seq<nat>, b: nat): seq<nat>
    requires b in order
  {
    if order[0] == b then order else [b] + Rest(order, b)
  }

  function Rest(order: seq<nat>, b: nat): seq<nat> {
    if order == [] then [] else if order[0] == b then order[1..] else [order[0]] + Rest(order[1..], b)
  }

  lemma {:induction false} RestIs(order: seq<nat>, i: nat)
    requires i < |order| && Distinct(order)
    ensures Rest(order, order[i]) == Without(order, i)
    decreases |order|
  {
    if i > 0 {
      RestIs(order[1..], i - 1);
      assert order[1..][i - 1] == order[i];
      assert Without(order, i) == [order[0]] + Without(order[1..], i - 1);
    }
  }

  lemma MovedIs(order: seq<nat>, i: nat)
    requires i < |order| && Distinct(order)
    ensures MovedToFront(order, order[i]) == [order[i]] + Without(order, i)
  {
    hide Rest;
    RestIs(order, i);
    if order[0] == order[i] {
      assert i == 0 && order == [order[0]] + order[1..];
    }
  }

  lemma InFront(order: seq<nat>, b: nat)
    requires b in order && Distinct(order)
    ensures exists i :: 0 <= i < |order| && order[i] == b
                        && MovedToFront(order, b) == [b] + order[..i] + order[i + 1..]
  {
    hide Rest, MovedToFront;
    var i: nat :| i < |order| && order[i] == b;
    MovedIs(order, i);
    hide Distinct;
    assert [b] + Without(order, i) == [b] + order[..i] + order[i + 1..];
  }

  /** What the assignments of brelse do to the list, one after the other. */
  lemma SixAssignments(next: seq<nat>, prev: seq<nat>, n: nat, order: seq<nat>, b: nat)
    requires Chain(next, prev, n, order) && b < n && |order| == n && forall c: nat :: c < n ==> c in order
    ensures |next| == |prev| == n + 1 && next[b] <= n && prev[b] <= n && next[b] != b && b in order
    ensures var p1 := prev[next[b] := prev[b]];
            && p1[b] <= n
            && var n1 := next[p1[b] := next[b]];
               var n2, p2 := n1[b := n1[n]], p1[b := n];
               && n2[n] <= n
               && Chain(n2[n := b], p2[n2[n] := b], n, MovedToFront(order, b))
    ensures |MovedToFront(order, b)| == n && forall c: nat :: c < n ==> c in MovedToFront(order, b)
  {
    hide Rest, MovedToFront;
    assert b in order && |next| == |prev| == n + 1 && Distinct(order);
    hide Chain;
    var i: nat :| i < |order| && order[i] == b;
    Unlink(next, prev, n, order, i);
    PushFront(next[prev[b] := next[b]], prev[next[b] := prev[b]], n, Without(order, i), b);
    FrontMember(order, i, n);
    MovedIs(order, i);
  }

  lemma FrontMember(order: seq<nat>, i: nat, n: nat)
    requires i < |order| && forall b: nat :: b < n ==> b in order
    ensures forall b: nat :: b < n ==> b in [order[i]] + Without(order, i)
  {
    forall b: nat | b < n ensures b in [order[i]] + Without(order, i) {
      assert b in order;
      var k :| 0 <= k < |order| && order[k] == b;
      if k < i { assert Without(order, i)[k] == b; }
      else if k > i { assert Without(order, i)[k - 1] == b; }
    }
  }

  lemma DirtyIsValid(buf: seq<Buf>, disk: seq<Data>, latest: seq<Data>)
    requires Coherent(buf, disk, latest)
    ensures forall b :: 0 <= b < |buf| && buf[b].dirty ==> buf[b].valid
  {
  }

  /** bread: the buffer b now stands for block `blockno` with the contents bread promises. */
  lemma BreadKeeps(buf: seq<Buf>, b: nat, c: Buf, disk: seq<Data>, latest: seq<Data>)
    requires Unique(buf, |disk|) && Coherent(buf, disk, latest) && b < |buf|
    requires c.dev == DEV && c.blockno < |disk| && c.valid && c.refcnt >= 1
    requires forall a :: 0 <= a < |buf| && a != b ==> !Holds(buf[a], DEV, c.blockno)
    requires if buf[b].valid && Holds(buf[b], DEV, c.blockno) then c.data == buf[b].data && c.dirty == buf[b].dirty
             else !buf[b].dirty && !c.dirty && c.data == disk[c.blockno]
    ensures Unique(buf[b := c], |disk|) && Coherent(buf[b := c], disk, latest) && c.data == latest[c.blockno]
    ensures SameDirty(buf, buf[b := c]) && DirtyOf(buf[b := c]) == DirtyOf(buf)
  {
    SameDirtyOf(buf, buf[b := c]);
    if !(buf[b].valid && Holds(buf[b], DEV, c.blockno)) {
      assert c.blockno !in DirtyOf(buf);
    }
  }
}
