/**
  A commit through the buffer cache, cut short by a crash.  Bcache.Cache.Commit writes the disks
  Image(1), Image(2), ...; here each of them is given to the recovery of LogSpec.
 */
module CommitCrash {
  import opened LogSpec
  import Bcache
  import BcacheList

  /** When the commit starts: an empty header on the disk d, and want differs from d in the blocks of lh only. */
  ghost predicate Ready(g: Geometry, lh: seq<nat>, d: Disk, want: Disk) {
    && HeaderOk(g, d) && d[g.start][0] == 0 && Loggable(g, d, lh) && |want| == |d|
    && (forall b: nat :: IsHome(g, d, b) && b !in lh ==> want[b] == d[b])
  }

  lemma RoomForLog(g: Geometry, lh: seq<nat>, d: Disk)
    requires Fits(g, d) && Loggable(g, d, lh)
    ensures Bcache.LogArea(lh, g.start, |d|)
  {
    forall i | 0 <= i < |lh| ensures lh[i] < |d| && !(g.start <= lh[i] <= g.start + |lh|) {
      assert IsHome(g, d, lh[i]);
    }
  }

  /** The disk after j writes, when the area is the log's. */
  ghost function Cut(g: Geometry, lh: seq<nat>, d: Disk, want: Disk, j: nat): (r: Disk)
    requires Ready(g, lh, d, want)
    ensures |r| == |d|
  {
    RoomForLog(g, lh, d);
    Bcache.Image(g.start, lh, d, want, j)
  }

  /** The writes of the two loops. */
  lemma CutWrites(g: Geometry, lh: seq<nat>, d: Disk, want: Disk, i: nat)
    requires Ready(g, lh, d, want)
    ensures Cut(g, lh, d, want, 0) == d
    ensures i < |lh| ==> lh[i] < |d| && g.start + i + 1 < |d|
    ensures i < |lh| ==> Cut(g, lh, d, want, i + 1) == Cut(g, lh, d, want, i)[g.start + i + 1 := want[lh[i]]]
    ensures i < |lh| ==> var p := Cut(g, lh, d, want, |lh| + 1 + i);
                         Cut(g, lh, d, want, |lh| + 2 + i) == p[lh[i] := p[g.start + i + 1]]
  {
    RoomForLog(g, lh, d);
    hide Ready, Bcache.Image;
    Bcache.NoWrites(g.start, lh, d, want);
    if i < |lh| {
      Bcache.SlotImage(g.start, lh, d, want, i);
      Bcache.HomeImage(g.start, lh, d, want, i);
    }
  }

  /** The two writes of the header. */
  lemma CutHeads(g: Geometry, lh: seq<nat>, d: Disk, want: Disk)
    requires Ready(g, lh, d, want)
    ensures g.start < |d| && |lh| < WORDS
    ensures var p := Cut(g, lh, d, want, |lh|);
            Cut(g, lh, d, want, |lh| + 1) == p[g.start := HeadSector(p[g.start], lh)]
    ensures var p := Cut(g, lh, d, want, 2 * |lh| + 1);
            Cut(g, lh, d, want, 2 * |lh| + 2) == p[g.start := HeadSector(p[g.start], [])]
  {
    RoomForLog(g, lh, d);
    hide Ready, Bcache.Image, HeadSector;
    Bcache.HeadImages(g.start, lh, d, want);
  }

  /** The header is empty, the first j slots are filled, and no other block has changed. */
  ghost predicate Logged(g: Geometry, lh: seq<nat>, d: Disk, want: Disk, c: Disk, j: nat)
    requires Ready(g, lh, d, want) && j <= |lh|
  {
    && |c| == |d| && c[g.start] == d[g.start]
    && (forall i :: 0 <= i < j ==> c[g.start + 1 + i] == want[lh[i]])
    && (forall b: nat :: IsHome(g, d, b) ==> c[b] == d[b])
  }

  lemma {:induction false} LoggedAt(g: Geometry, lh: seq<nat>, d: Disk, want: Disk, j: nat)
    requires Ready(g, lh, d, want) && j <= |lh|
    ensures Logged(g, lh, d, want, Cut(g, lh, d, want, j), j)
  {
    hide Cut;
    CutWrites(g, lh, d, want, if j > 0 then j - 1 else 0);
    if j > 0 {
      hide Logged, Ready;
      LoggedAt(g, lh, d, want, j - 1);
      OneMoreSlot(g, lh, d, want, Cut(g, lh, d, want, j - 1), Cut(g, lh, d, want, j), j - 1);
    }
  }

  lemma OneMoreSlot(g: Geometry, lh: seq<nat>, d: Disk, want: Disk, p: Disk, c: Disk, j: nat)
    requires Ready(g, lh, d, want) && j < |lh| && Logged(g, lh, d, want, p, j)
    requires g.start + j + 1 < |p| && lh[j] < |want| && c == p[g.start + j + 1 := want[lh[j]]]
    ensures Logged(g, lh, d, want, c, j + 1)
  {
    InsideLog(g, lh, d, j + 1);
  }

  lemma InsideLog(g: Geometry, lh: seq<nat>, d: Disk, j: nat)
    requires Fits(g, d) && Loggable(g, d, lh) && 0 < j <= |lh|
    ensures g.start + j < g.start + g.nlog && !IsHome(g, d, g.start + j)
  {
  }

  /** Before the header is written, recovery finds the disk as it was. */
  lemma BeforeSeal(g: Geometry, lh: seq<nat>, d: Disk, want: Disk, j: nat)
    requires Ready(g, lh, d, want) && j <= |lh|
    ensures Recovered(g, Cut(g, lh, d, want, j)) == HomeOf(g, d)
  {
    var c := Cut(g, lh, d, want, j);
    LoggedAt(g, lh, d, want, j);
    hide Cut;
    RecoveredIs(g, c, d);
  }

  /** The header names the transaction, each slot holds its block, and recovery finds all of it. */
  ghost predicate Sealed(g: Geometry, lh: seq<nat>, d: Disk, want: Disk, c: Disk) {
    && |c| == |d| && HeaderOk(g, c) && Header(g, c) == lh && Recovered(g, c) == HomeOf(g, want)
  }

  /** The write of the header is the commit point. */
  lemma SealWrite(g: Geometry, lh: seq<nat>, d: Disk, want: Disk, p: Disk, c: Disk)
    requires Ready(g, lh, d, want) && Logged(g, lh, d, want, p, |lh|)
    requires g.start < |p| && |lh| < WORDS && c == p[g.start := HeadSector(p[g.start], lh)]
    ensures Sealed(g, lh, d, want, c)
    ensures forall k :: 0 <= k < |lh| ==> c[g.start + 1 + k] == want[lh[k]]
    ensures forall b: nat :: IsHome(g, d, b) ==> c[b] == d[b]
  {
    HeadWriteCommits(g, p, lh);
    hide HeadSector;
    assert Recovered(g, c) == HomeOf(g, want) by {
      hide Loggable;
      RecoveredIs(g, c, want);
    }
  }

  /** The first i blocks are home, every slot is still filled, and no block outside lh has changed. */
  ghost predicate Copied(g: Geometry, lh: seq<nat>, d: Disk, want: Disk, c: Disk, i: nat)
    requires |c| == |d| == |want| && Bcache.LogArea(lh, g.start, |d|) && i <= |lh|
  {
    && (forall k :: 0 <= k < |lh| ==> c[g.start + 1 + k] == want[lh[k]])
    && (forall k :: 0 <= k < i ==> c[lh[k]] == want[lh[k]])
    && (forall b: nat :: IsHome(g, d, b) && b !in lh ==> c[b] == d[b])
  }

  ghost predicate Installed(g: Geometry, lh: seq<nat>, d: Disk, want: Disk, c: Disk, i: nat)
    requires Ready(g, lh, d, want) && i <= |lh|
  {
    RoomForLog(g, lh, d);
    Sealed(g, lh, d, want, c) && Copied(g, lh, d, want, c, i)
  }

  /** No copy home changes what recovery finds. */
  lemma {:induction false} AfterSeal(g: Geometry, lh: seq<nat>, d: Disk, want: Disk, i: nat)
    requires Ready(g, lh, d, want) && i <= |lh|
    ensures Installed(g, lh, d, want, Cut(g, lh, d, want, |lh| + 1 + i), i)
  {
    hide Cut, Installed, Ready;
    if i == 0 {
      JustSealed(g, lh, d, want);
    } else {
      AfterSeal(g, lh, d, want, i - 1);
      CutWrites(g, lh, d, want, i - 1);
      OneMoreHome(g, lh, d, want, Cut(g, lh, d, want, |lh| + i), Cut(g, lh, d, want, |lh| + 1 + i), i - 1);
    }
  }

  lemma JustSealed(g: Geometry, lh: seq<nat>, d: Disk, want: Disk)
    requires Ready(g, lh, d, want)
    ensures Installed(g, lh, d, want, Cut(g, lh, d, want, |lh| + 1), 0)
  {
    hide Cut, Ready, Sealed, Logged;
    LoggedAt(g, lh, d, want, |lh|);
    CutHeads(g, lh, d, want);
    SealWrite(g, lh, d, want, Cut(g, lh, d, want, |lh|), Cut(g, lh, d, want, |lh| + 1));
  }

  lemma OneMoreHome(g: Geometry, lh: seq<nat>, d: Disk, want: Disk, p: Disk, c: Disk, i: nat)
    requires Ready(g, lh, d, want) && i < |lh| && Installed(g, lh, d, want, p, i)
    requires g.start + i + 1 < |p| && lh[i] < |p| && c == p[lh[i] := p[g.start + i + 1]]
    ensures Installed(g, lh, d, want, c, i + 1)
  {
    RoomForLog(g, lh, d);
    HomesApart(g, lh, d, i);
    StillSealed(g, lh, d, want, p, i);
    hide Ready, Copied, Sealed;
    OneMoreCopy(g, lh, d, want, p, i);
  }

  lemma OneMoreCopy(g: Geometry, lh: seq<nat>, d: Disk, want: Disk, p: Disk, i: nat)
    requires |p| == |d| == |want| && Bcache.LogArea(lh, g.start, |d|) && i < |lh| && Copied(g, lh, d, want, p, i)
    requires forall k :: 0 <= k < |lh| && k != i ==> lh[k] != lh[i]
    ensures Copied(g, lh, d, want, p[lh[i] := p[g.start + i + 1]], i + 1)
  {
  }

  lemma StillSealed(g: Geometry, lh: seq<nat>, d: Disk, want: Disk, p: Disk, i: nat)
    requires Sealed(g, lh, d, want, p) && i < |lh|
    ensures lh[i] < |p| && g.start + 1 + i < |p| && Sealed(g, lh, d, want, p[lh[i] := p[g.start + 1 + i]])
  {
    HeaderLength(g, p);
    hide Recovered, HomeOf, HeaderOk;
    InstallKeepsHeader(g, p, i);
    InstallInvisible(g, p, i);
  }

  lemma HeaderLength(g: Geometry, d: Disk)
    requires HeaderOk(g, d)
    ensures |Header(g, d)| == d[g.start][0]
  {
  }

  lemma HomesApart(g: Geometry, lh: seq<nat>, d: Disk, i: nat)
    requires Fits(g, d) && Loggable(g, d, lh) && i < |lh|
    ensures forall k :: 0 <= k < |lh| && k != i ==> lh[k] != lh[i]
    ensures !(g.start <= lh[i] <= g.start + |lh|)
  {
    assert IsHome(g, d, lh[i]);
  }

  /** The second write of the header: everything is home, and recovery has nothing left to do. */
  lemma AtEnd(g: Geometry, lh: seq<nat>, d: Disk, want: Disk)
    requires Ready(g, lh, d, want)
    ensures Recovered(g, Cut(g, lh, d, want, 2 * |lh| + 2)) == HomeOf(g, want)
    ensures Header(g, Cut(g, lh, d, want, 2 * |lh| + 2)) == []
  {
    hide Cut, Ready, Installed, Recovered, HomeOf, Header;
    AfterSeal(g, lh, d, want, |lh|);
    CutHeads(g, lh, d, want);
    AllHome(g, lh, d, want, Cut(g, lh, d, want, 2 * |lh| + 1), Cut(g, lh, d, want, 2 * |lh| + 2));
  }

  lemma AllHome(g: Geometry, lh: seq<nat>, d: Disk, want: Disk, p: Disk, c: Disk)
    requires Ready(g, lh, d, want) && Installed(g, lh, d, want, p, |lh|)
    requires g.start < |p| && c == p[g.start := HeadSector(p[g.start], [])]
    ensures Recovered(g, c) == HomeOf(g, want) && Header(g, c) == []
  {
    HeadWriteCommits(g, p, []);
    hide HeadSector;
    forall b: nat | IsHome(g, d, b) ensures want[b] == c[b] {
      if b in lh { var k :| 0 <= k < |lh| && lh[k] == b; }
    }
    hide Ready, Installed;
    RecoveredIs(g, c, want);
  }

  /**
    Whenever the machine stops during a commit, recovery finds all of the transaction or none of it: none
    through the writes to the slots, all from the write of the header on.
   */
  lemma CommitAtomic(g: Geometry, lh: seq<nat>, d: Disk, want: Disk, j: nat)
    requires Ready(g, lh, d, want) && j <= 2 * |lh| + 2
    ensures Recovered(g, Cut(g, lh, d, want, j)) == if j <= |lh| then HomeOf(g, d) else HomeOf(g, want)
    ensures |lh| < j <= 2 * |lh| + 1 ==> Header(g, Cut(g, lh, d, want, j)) == lh
  {
    hide Ready, Recovered, HomeOf, Cut;
    if j <= |lh| {
      BeforeSeal(g, lh, d, want, j);
    } else if j <= 2 * |lh| + 1 {
      AfterSeal(g, lh, d, want, j - |lh| - 1);
    } else {
      AtEnd(g, lh, d, want);
    }
  }

  /** The cache's own state gives such a start. */
  lemma ReadyFromCache(g: Geometry, lh: seq<nat>, buf: seq<Bcache.Buf>, d: Disk, want: Disk)
    requires HeaderOk(g, d) && d[g.start][0] == 0 && Loggable(g, d, lh)
    requires Bcache.Coherent(buf, d, want) && Bcache.DirtyOf(buf) == Bcache.Members(lh)
    ensures Ready(g, lh, d, want)
  {
  }

  /** What recovery finds after write number m + 1 of a commit of n blocks. */
  ghost function Found(g: Geometry, d: Disk, want: Disk, n: nat, m: int): Home {
    if m < n then HomeOf(g, d) else HomeOf(g, want)
  }

  lemma FollowsFound(g: Geometry, lh: seq<nat>, d: Disk, want: Disk, before: seq<Disk>, after: seq<Disk>, j: nat)
    requires Ready(g, lh, d, want) && Bcache.LogArea(lh, g.start, |d|) && |want| == |d|
    requires Bcache.Follows(before, after, g.start, lh, d, want, 0)
    requires |before| <= j < |after| <= |before| + 2 * |lh| + 2
    ensures Recovered(g, after[j]) == Found(g, d, want, |lh|, j - |before|)
  {
    hide Ready, Recovered, HomeOf, Cut, Bcache.Follows;
    FollowsCut(g, lh, d, want, before, after, j);
    CommitAtomic(g, lh, d, want, j + 1 - |before|);
  }

  lemma FollowsCut(g: Geometry, lh: seq<nat>, d: Disk, want: Disk, before: seq<Disk>, after: seq<Disk>, j: nat)
    requires Ready(g, lh, d, want) && Bcache.LogArea(lh, g.start, |d|)
    requires Bcache.Follows(before, after, g.start, lh, d, want, 0) && |before| <= j < |after|
    ensures after[j] == Cut(g, lh, d, want, j + 1 - |before|)
  {
    hide Ready, Bcache.Image;
  }

  lemma OnlyGrows(g: Geometry, lh: seq<nat>, d: Disk, want: Disk, before: seq<Disk>, after: seq<Disk>)
    requires Bcache.LogArea(lh, g.start, |d|) && |want| == |d|
    requires Bcache.Follows(before, after, g.start, lh, d, want, 0)
    ensures before <= after
  {
  }

  /**
    commit() of a cache whose disk has an empty header: a crash after any of its writes leaves the blocks
    of before or those of the whole transaction, and at the end the disk is ready for the next one.
   */
  method Commit(cache: Bcache.Cache, g: Geometry) returns (ok: bool)
    requires cache.Valid() && cache.Pinned() && HeaderOk(g, cache.disk) && cache.disk[g.start][0] == 0
    requires Loggable(g, cache.disk, cache.header)
    modifies cache
    ensures old(cache.images) <= cache.images
    ensures forall j :: |old(cache.images)| <= j < |cache.images| ==>
              Recovered(g, cache.images[j])
              == Found(g, old(cache.disk), old(cache.latest), |old(cache.header)|, j - |old(cache.images)|)
    ensures ok ==> cache.Valid() && cache.Pinned() && cache.header == [] && cache.disk == cache.latest
    ensures ok ==> |cache.disk| == |old(cache.disk)| && cache.disk[g.start][0] == 0
    ensures ok ==> HomeOf(g, cache.disk) == HomeOf(g, old(cache.latest))
  {
    hide BcacheList.Chain, Bcache.Unique, Bcache.Follows, Bcache.SlotsCached, Bcache.HasIdle;
    RoomForLog(g, cache.header, cache.disk);
    ReadyFromCache(g, cache.header, cache.buf, cache.disk, cache.latest);
    hide Bcache.Coherent, Bcache.DirtyOf, Ready, Recovered, Found;
    ok := cache.Commit(g.start);
    OnlyGrows(g, old(cache.header), old(cache.disk), old(cache.latest), old(cache.images), cache.images);
    forall j | |old(cache.images)| <= j < |cache.images|
      ensures Recovered(g, cache.images[j])
              == Found(g, old(cache.disk), old(cache.latest), |old(cache.header)|, j - |old(cache.images)|)
    {
      FollowsFound(g, old(cache.header), old(cache.disk), old(cache.latest), old(cache.images), cache.images, j);
    }
    if ok {
      SameHomes(g, old(cache.header), old(cache.latest), cache.disk);
    }
  }

  lemma SameHomes(g: Geometry, lh: seq<nat>, want: Disk, d: Disk)
    requires Fits(g, want) && |lh| < g.nlog && Bcache.SameOutside(want, d, g.start, |lh| + 1)
    ensures HomeOf(g, d) == HomeOf(g, want)
  {
  }
}
