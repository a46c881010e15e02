/**
  log.c as it runs: the in-memory header, the counters, and the loops that copy blocks.
  `trace` records the disk image after every sector write, so that a contract can speak
  of a crash between any two of them.
 */
module Logger {
  import opened Params
  import opened LogSpec
  import opened CrashMachine

  class Log {
    const g: Geometry
    var disk: Disk
    var cache: Disk               // what bread returns for each block
    var n: nat                    // log.lh.n
    const block: array<nat>       // log.lh.block
    var outstanding: nat
    var committing: bool
    ghost var trace: seq<Disk>

    ghost function Logged(): seq<nat>
      requires n <= block.Length
      reads this, block
    {
      block[..n]
    }

    /** This object as a state of the step machine. */
    ghost function View(phase: Phase): State
      requires n <= block.Length
      reads this, block
    {
      State(disk, cache, Logged(), outstanding, phase)
    }

    /** The machine invariant, and a cache that agrees with the disk on the log's own blocks. */
    ghost predicate Valid(phase: Phase)
      reads this, block
    {
      && block.Length == LOGSIZE && n <= LOGSIZE
      && Inv(g, View(phase))
      && LogCoherent(g, disk, cache)
      && committing == Committing(View(phase))
    }

    /** bwrite: the buffer of block b, holding s, goes to the disk. */
    method Bwrite(b: nat, s: Sector)
      requires b < |disk| == |cache|
      modifies this`disk, this`cache, this`trace
      ensures disk == old(disk)[b := s] && cache == old(cache)[b := s] && trace == old(trace) + [disk]
    {
      disk := disk[b := s];
      cache := cache[b := s];
      trace := trace + [disk];
    }

    method WriteLog()
      requires Valid(Logging(0))
      modifies this`disk, this`cache, this`trace
      ensures Valid(Logging(n))
      ensures HomeOf(g, cache) == old(HomeOf(g, cache))
      ensures |trace| == old(|trace|) + n && old(trace) <= trace
      ensures forall i :: old(|trace|) <= i < |trace| ==> Survives(g, trace[i], old(Recovered(g, disk)))
    {
      ghost var h, r := HomeOf(g, cache), Recovered(g, disk);
      var tail := 0;
      while tail < n
        invariant tail <= n && Valid(Logging(tail)) && Logged() == old(Logged())
        invariant HomeOf(g, cache) == h && Recovered(g, disk) == r
        invariant |trace| == old(|trace|) + tail && old(trace) <= trace
        invariant forall i :: old(|trace|) <= i < |trace| ==> Survives(g, trace[i], r)
      {
        WriteSlot(tail);
        tail := tail + 1;
      }
    }

    /** One turn of write_log's loop. */
    method WriteSlot(tail: nat)
      requires Valid(Logging(tail)) && tail < n
      modifies this`disk, this`cache, this`trace
      ensures Valid(Logging(tail + 1)) && Logged() == old(Logged())
      ensures HomeOf(g, cache) == old(HomeOf(g, cache)) && Recovered(g, disk) == old(Recovered(g, disk))
      ensures trace == old(trace) + [disk] && Survives(g, disk, old(Recovered(g, disk)))
    {
      ghost var s := View(Logging(tail));
      LoggingTick(g, s);
      var to, from := g.start + tail + 1, block[tail];
      Bwrite(to, cache[from]);
      LogSectorWritten(g, s.disk, s.cache, to, s.cache[from]);
      assert View(Logging(tail + 1)) == TickStep(g, s).(cache := cache);
      CacheOfLogIrrelevant(g, TickStep(g, s), cache);
    }

    method WriteHead()
      requires Fits(g, disk) && LogCoherent(g, disk, cache) && n <= block.Length == LOGSIZE
      modifies this`disk, this`cache, this`trace
      ensures disk == old(disk)[g.start := HeadSector(old(disk)[g.start], Logged())]
      ensures LogCoherent(g, disk, cache) && HomeOf(g, cache) == old(HomeOf(g, cache))
      ensures trace == old(trace) + [disk]
    {
      var prior := cache[g.start];
      var hb: Sector := prior[0 := n];
      var i := 0;
      while i < n
        invariant 0 <= i <= n
        invariant hb[0] == n && forall k :: 0 <= k < i ==> hb[1 + k] == block[k]
        invariant forall k :: 1 + i <= k < WORDS ==> hb[k] == prior[k]
      {
        hb := hb[1 + i := block[i]];
        i := i + 1;
      }
      assert hb == HeadSector(prior, Logged());
      Bwrite(g.start, hb);
      LogSectorWritten(g, old(disk), old(cache), g.start, hb);
    }

    method InstallTrans()
      requires HeaderOk(g, disk) && LogCoherent(g, disk, cache) && n <= block.Length == LOGSIZE
      requires Header(g, disk) == Logged()
      modifies this`disk, this`cache, this`trace
      ensures Copied(g, old(disk), old(cache), Logged(), disk, cache, n)
      ensures |trace| == old(|trace|) + n && old(trace) <= trace
      ensures forall i :: old(|trace|) <= i < |trace| ==> Survives(g, trace[i], old(Recovered(g, disk)))
    {
      hide Copied, Recovered, HeaderOk, LogCoherent, Header, Survives;
      NoneCopied(g, disk, cache, Logged());
      var tail := 0;
      while tail < n
        invariant tail <= n && Copied(g, old(disk), old(cache), Logged(), disk, cache, tail)
        invariant |trace| == old(|trace|) + tail && old(trace) <= trace
        invariant forall i :: old(|trace|) <= i < |trace| ==> Survives(g, trace[i], old(Recovered(g, disk)))
      {
        CopyOne(g, old(disk), old(cache), Logged(), disk, cache, tail);
        var dst, lbuf := block[tail], cache[g.start + tail + 1];
        Bwrite(dst, lbuf);
        tail := tail + 1;
      }
    }

    /** The commit.  A crash before the header write finds the old blocks, a crash after it the new ones. */
    method Commit()
      requires Valid(if n > 0 then Logging(0) else Finishing)
      modifies this`disk, this`cache, this`trace, this`n
      ensures Valid(Finishing) && HomeOf(g, cache) == old(HomeOf(g, cache)) == HomeOf(g, disk)
      ensures |trace| >= old(|trace|) && old(trace) <= trace
      ensures forall i :: old(|trace|) <= i < |trace| ==>
                Survives(g, trace[i],
                         if i < old(|trace| + n) then old(Recovered(g, disk)) else old(HomeOf(g, cache)))
    {
      if n > 0 {
        CommitLogged();
      } else {
        RecoveredWithEmptyHeader(g, disk);
        QuietLog(g, disk, cache);
      }
    }

    method CommitLogged()
      requires Valid(Logging(0))
      modifies this`disk, this`cache, this`trace, this`n
      ensures n == 0 && Valid(Finishing) && HomeOf(g, cache) == old(HomeOf(g, cache)) == HomeOf(g, disk)
      ensures |trace| >= old(|trace| + n) && old(trace) <= trace
      ensures Images(g, trace, old(|trace|), old(|trace| + n), old(Recovered(g, disk)))
      ensures Images(g, trace, old(|trace| + n), |trace|, old(HomeOf(g, cache)))
    {
      assert outstanding == 0;
      hide Recovered, HomeOf, Inv, HeaderOk, Header, LogCoherent, Images;
      ghost var s := CommitPoint();
      ghost var t0 := trace;
      InstallAndClear(s);
      ImagesGrow(g, t0, trace, old(|trace|), old(|trace| + n), old(Recovered(g, disk)));
      ImagesJoin(g, t0, trace, old(|trace| + n), old(HomeOf(g, cache)));
    }

    /** install_trans and the clearing of the header, after the commit point. */
    method InstallAndClear(ghost s: State)
      requires block.Length == LOGSIZE && n <= LOGSIZE && outstanding == 0 && committing
      requires Inv(g, s) && s.phase == Logging(|s.lh|) && s.lh == Logged() && |s.lh| < WORDS && Fits(g, s.disk)
      requires disk == s.disk[g.start := HeadSector(s.disk[g.start], s.lh)] && |cache| == |s.cache|
      requires HomeOf(g, cache) == HomeOf(g, s.cache) == Recovered(g, disk)
      requires LogCoherent(g, disk, cache) && HeaderOk(g, disk) && Header(g, disk) == Logged()
      modifies this`disk, this`cache, this`trace, this`n
      ensures n == 0 && Valid(Finishing) && HomeOf(g, cache) == HomeOf(g, s.cache) == HomeOf(g, disk)
      ensures old(trace) <= trace
      ensures forall i :: old(|trace|) <= i < |trace| ==> Survives(g, trace[i], HomeOf(g, s.cache))
    {
      hide Recovered, HomeOf, Inv, HeaderOk, Header, Copied, LogCoherent, Survives;
      ghost var d0, c0 := disk, cache;
      InstallTrans();
      CopiedKeepsCache(g, s, d0, c0, disk, cache);
      CopiedFits(g, d0, c0, s.lh, disk, cache);
      n := 0;
      assert Logged() == [];
      WriteHead();
      QuietLog(g, disk, cache);
    }

    /** write_log and the write of the header: up to the commit point, and one step past it. */
    method CommitPoint() returns (ghost s: State)
      requires Valid(Logging(0))
      modifies this`disk, this`cache, this`trace
      ensures Inv(g, s) && s.phase == Logging(|s.lh|) && s.lh == Logged() && |s.lh| < WORDS && Fits(g, s.disk)
      ensures disk == s.disk[g.start := HeadSector(s.disk[g.start], s.lh)] && |cache| == |s.cache|
      ensures HomeOf(g, cache) == HomeOf(g, s.cache) == old(HomeOf(g, cache)) == Recovered(g, disk)
      ensures LogCoherent(g, disk, cache) && HeaderOk(g, disk) && Header(g, disk) == Logged()
      ensures |trace| == old(|trace|) + n + 1 && old(trace) <= trace
      ensures Images(g, trace, old(|trace|), old(|trace|) + n, old(Recovered(g, disk)))
      ensures Images(g, trace, old(|trace|) + n, |trace|, old(HomeOf(g, cache)))
    {
      hide Recovered, HomeOf, Inv, HeaderOk, Header;
      WriteLog();
      s := View(Logging(n));
      LoggedIsInstallable(g, s);
      WriteHead();
    }

    method ReadHead()
      requires HeaderOk(g, disk) && LogCoherent(g, disk, cache) && block.Length == LOGSIZE
      modifies this`n, block
      ensures n <= LOGSIZE && Logged() == Header(g, disk)
    {
      var buf := cache[g.start];
      n := buf[0];
      var i := 0;
      while i < n
        invariant 0 <= i <= n <= LOGSIZE && n == buf[0] && block[..i] == buf[1..1 + i]
      {
        block[i] := buf[1 + i];
        i := i + 1;
      }
    }

    /** Recovery.  However often it is cut short, the next attempt restores the same blocks. */
    method RecoverFromLog()
      requires HeaderOk(g, disk) && cache == disk && block.Length == LOGSIZE && outstanding == 0 && !committing
      modifies this`disk, this`cache, this`trace, this`n, block
      ensures Valid(Running) && n == 0
      ensures HomeOf(g, disk) == HomeOf(g, cache) == old(Recovered(g, disk))
      ensures |trace| >= old(|trace|) && old(trace) <= trace
      ensures forall i :: old(|trace|) <= i < |trace| ==> Survives(g, trace[i], old(Recovered(g, disk)))
    {
      ghost var d0 := disk;
      ReadHead();
      hide Recovered, HomeOf, Position, Inv;
      InstallTrans();
      ReplayedCache(g, d0, Logged(), disk, cache);
      n := 0;
      WriteHead();
      QuietLog(g, disk, cache);
      assert Logged() == [];
    }

    /**
      A new operation id is admitted exactly when the step machine lets it begin, and then takes that
      step; otherwise the caller sleeps and nothing changes.  What the admitted operations may still
      log fits beside what is logged.
     */
    method BeginOp(ghost phase: Phase, ghost a: Abs, ghost id: OpId) returns (admitted: bool)
      requires Valid(phase) && !phase.Rebooted? && !phase.Replaying? && id !in a.begun
      modifies this`outstanding
      ensures Valid(phase)
      ensures admitted <==> Enabled(g, Config(old(View(phase)), a), Begin(id))
      ensures View(phase) == if admitted then Step(g, Config(old(View(phase)), a), Begin(id)) else old(View(phase))
      ensures admitted <==> !old(committing) && n + (old(outstanding) + 1) * MAXOPBLOCKS <= LOGSIZE
      ensures admitted ==> n + outstanding * MAXOPBLOCKS <= LOGSIZE
    {
      hide HeaderOk, Loggable;
      admitted := false;
      if committing {
        return;
      }
      if n + (outstanding + 1) * MAXOPBLOCKS > LOGSIZE {
        return;
      }
      outstanding := outstanding + 1;
      admitted := true;
    }

    /** The caller has put `data` in the buffer of block b.  Absorbs a block that is logged already. */
    method LogWrite(b: nat, data: Sector) returns (panicked: bool)
      requires Valid(Running) && IsHome(g, disk, b)
      modifies this`n, this`cache, block
      ensures panicked <==> old(n) >= LOGSIZE || old(n) >= g.nlog - 1 || outstanding < 1
      ensures Valid(Running)
      ensures panicked ==> View(Running) == old(View(Running))
      ensures !panicked ==>
                View(Running) == old(View(Running)).(cache := old(cache)[b := data], lh := LogBlock(old(Logged()), b))
    {
      if n >= LOGSIZE || n >= g.nlog - 1 { return true; }
      if outstanding < 1 { return true; }
      ghost var lh := Logged();
      var i := 0;
      while i < n && block[i] != b
        invariant 0 <= i <= n && b !in lh[..i]
      {
        i := i + 1;
      }
      block[i] := b;
      if i == n { n := n + 1; }
      cache := cache[b := data];
      assert Logged() == LogBlock(lh, b) by {
        if i < |lh| { assert lh[i] == b; } else { assert lh[..i] == lh; }
      }
      LogWriteKeepsInv(g, old(View(Running)), b, data);
      return false;
    }

    /** The last operation out commits the whole group, including what it wrote itself. */
    method EndOp()
      requires Valid(Running) && outstanding >= 1
      modifies this`disk, this`cache, this`trace, this`n, this`outstanding, this`committing
      ensures Valid(Running) && outstanding == old(outstanding) - 1
      ensures HomeOf(g, cache) == old(HomeOf(g, cache))
      ensures outstanding > 0 ==> n == old(n) && disk == old(disk) && trace == old(trace)
      ensures outstanding == 0 ==> n == 0 && HomeOf(g, disk) == old(HomeOf(g, cache))
      ensures old(trace) <= trace
      ensures forall i :: old(|trace|) <= i < |trace| ==>
                Survives(g, trace[i],
                         if i < old(|trace| + n) then old(Recovered(g, disk)) else old(HomeOf(g, cache)))
    {
      outstanding := outstanding - 1;
      if outstanding == 0 {
        committing := true;
        Commit();
        committing := false;
      }
    }
  }

  ghost predicate LogCoherent(g: Geometry, disk: Disk, cache: Disk) {
    |cache| == |disk| && forall b: nat :: b < |disk| && InLog(g, b) ==> cache[b] == disk[b]
  }

  /** After a crash on image d, recovery restores exactly the blocks h. */
  ghost predicate Survives(g: Geometry, d: Disk, h: Home) {
    HeaderOk(g, d) && Recovered(g, d) == h
  }

  lemma LogSectorWritten(g: Geometry, disk: Disk, cache: Disk, b: nat, s: Sector)
    requires LogCoherent(g, disk, cache) && b < |disk| && InLog(g, b)
    ensures LogCoherent(g, disk[b := s], cache[b := s])
    ensures HomeOf(g, cache[b := s]) == HomeOf(g, cache)
  {
  }

  lemma HomeSectorWritten(g: Geometry, disk: Disk, cache: Disk, b: nat, s: Sector)
    requires LogCoherent(g, disk, cache) && IsHome(g, disk, b)
    ensures LogCoherent(g, disk[b := s], cache[b := s])
  {
  }

  /** The disk images from lo up to hi all recover to h. */
  ghost predicate Images(g: Geometry, trace: seq<Disk>, lo: nat, hi: nat, h: Home) {
    hi <= |trace| && forall i :: lo <= i < hi ==> Survives(g, trace[i], h)
  }

  lemma ImagesGrow(g: Geometry, t: seq<Disk>, t': seq<Disk>, lo: nat, hi: nat, h: Home)
    requires Images(g, t, lo, hi, h) && t <= t'
    ensures Images(g, t', lo, hi, h)
  {
  }

  lemma ImagesJoin(g: Geometry, t: seq<Disk>, t': seq<Disk>, lo: nat, h: Home)
    requires Images(g, t, lo, |t|, h) && t <= t' && forall i :: |t| <= i < |t'| ==> Survives(g, t'[i], h)
    ensures Images(g, t', lo, |t'|, h)
  {
  }

  /** install_trans after `tail` blocks, from disk d0 and cache c0. */
  ghost predicate Copied(g: Geometry, d0: Disk, c0: Disk, lh: seq<nat>, d: Disk, c: Disk, tail: nat) {
    && HeaderOk(g, d) && LogCoherent(g, d, c) && Header(g, d) == lh && tail <= |lh|
    && |d| == |d0| == |c0| && Recovered(g, d) == Recovered(g, d0)
    && (forall i :: 0 <= i < tail ==> d[lh[i]] == c[lh[i]] == d[g.start + 1 + i])
    && (forall b: nat :: b < |d| && b !in lh ==> d[b] == d0[b] && c[b] == c0[b])
  }

  lemma NoneCopied(g: Geometry, d: Disk, c: Disk, lh: seq<nat>)
    requires HeaderOk(g, d) && LogCoherent(g, d, c) && Header(g, d) == lh
    ensures Copied(g, d, c, lh, d, c, 0)
  {
  }

  lemma CopiedFits(g: Geometry, d0: Disk, c0: Disk, lh: seq<nat>, d: Disk, c: Disk)
    requires Copied(g, d0, c0, lh, d, c, |lh|)
    ensures Fits(g, d) && LogCoherent(g, d, c)
  {
  }

  lemma CopyOne(g: Geometry, d0: Disk, c0: Disk, lh: seq<nat>, d: Disk, c: Disk, tail: nat)
    requires Copied(g, d0, c0, lh, d, c, tail) && tail < |lh|
    ensures lh[tail] < |d| == |c| && g.start + tail + 1 < |c|
    ensures var s := c[g.start + tail + 1];
            && Copied(g, d0, c0, lh, d[lh[tail] := s], c[lh[tail] := s], tail + 1)
            && Survives(g, d[lh[tail] := s], Recovered(g, d0))
  {
    hide Recovered;
    InstallInvisible(g, d, tail);
    assert IsHome(g, d, lh[tail]);
    assert InLog(g, g.start + tail + 1);
    HomeSectorWritten(g, d, c, lh[tail], c[g.start + tail + 1]);
    hide HeaderOk, LogCoherent;
  }

  /** Once the slots are written, the header write makes the cached blocks the recoverable ones. */
  lemma LoggedIsInstallable(g: Geometry, s: State)
    requires Inv(g, s) && s.phase == Logging(|s.lh|)
    ensures |s.lh| < WORDS && Fits(g, s.disk)
    ensures var d := s.disk[g.start := HeadSector(s.disk[g.start], s.lh)];
            HeaderOk(g, d) && Header(g, d) == s.lh && Survives(g, d, HomeOf(g, s.cache))
  {
    CommitTick(g, s);
  }

  /** Installing copies to the home blocks what the cache already holds for them. */
  lemma CopiedKeepsCache(g: Geometry, s: State, d0: Disk, c0: Disk, d: Disk, c: Disk)
    requires Inv(g, s) && s.phase == Logging(|s.lh|) && |s.lh| < WORDS
    requires d0 == s.disk[g.start := HeadSector(s.disk[g.start], s.lh)]
    requires |c0| == |s.cache| && HomeOf(g, c0) == HomeOf(g, s.cache)
    requires Copied(g, d0, c0, s.lh, d, c, |s.lh|)
    requires Recovered(g, d0) == HomeOf(g, s.cache)
    ensures HomeOf(g, c) == HomeOf(g, s.cache)
    ensures var d' := d[g.start := HeadSector(d[g.start], [])];
            && HeaderOk(g, d') && d'[g.start][0] == 0 && HomeOf(g, d') == HomeOf(g, s.cache)
            && Survives(g, d', HomeOf(g, s.cache))
  {
    ClearHead(g, d);
    CopiedCache(g, s, d0, c0, d, c);
  }

  lemma CopiedCache(g: Geometry, s: State, d0: Disk, c0: Disk, d: Disk, c: Disk)
    requires Inv(g, s) && s.phase == Logging(|s.lh|) && |s.lh| < WORDS
    requires d0 == s.disk[g.start := HeadSector(s.disk[g.start], s.lh)]
    requires |c0| == |s.cache| && HomeOf(g, c0) == HomeOf(g, s.cache)
    requires Copied(g, d0, c0, s.lh, d, c, |s.lh|)
    ensures HomeOf(g, c) == HomeOf(g, s.cache)
  {
    hide Inv, Recovered, HeaderOk, HomeOf;
    assert |c| == |s.cache|;
    hide Copied;
    forall b: nat | b < |c| && !InLog(g, b) ensures c[b] == s.cache[b] {
      CopiedCacheAt(g, s, d0, c0, d, c, b);
    }
    SameHome(g, c, s.cache);
  }

  lemma CopiedCacheAt(g: Geometry, s: State, d0: Disk, c0: Disk, d: Disk, c: Disk, b: nat)
    requires Inv(g, s) && s.phase == Logging(|s.lh|) && |s.lh| < WORDS
    requires d0 == s.disk[g.start := HeadSector(s.disk[g.start], s.lh)]
    requires |c0| == |s.cache| && HomeOf(g, c0) == HomeOf(g, s.cache)
    requires Copied(g, d0, c0, s.lh, d, c, |s.lh|)
    requires b < |c| && !InLog(g, b)
    ensures c[b] == s.cache[b]
  {
    if b in s.lh {
      var i: nat :| i < |s.lh| && s.lh[i] == b;
      CopiedSlot(g, s, d0, c0, d, c, i);
    } else {
      hide Recovered, HeaderOk, Clean, HomeOf, Inv;
      HomeAt(g, c0, b);
      HomeAt(g, s.cache, b);
    }
  }

  /** A logged block reaches its home from the slot that was filled from the cache. */
  lemma CopiedSlot(g: Geometry, s: State, d0: Disk, c0: Disk, d: Disk, c: Disk, i: nat)
    requires Inv(g, s) && s.phase == Logging(|s.lh|) && |s.lh| < WORDS && i < |s.lh|
    requires d0 == s.disk[g.start := HeadSector(s.disk[g.start], s.lh)]
    requires Copied(g, d0, c0, s.lh, d, c, |s.lh|)
    ensures s.lh[i] < |c| == |s.cache| && c[s.lh[i]] == s.cache[s.lh[i]]
  {
    hide Recovered, Clean, Header;
    var slot := g.start + 1 + i;
    assert IsHome(g, s.disk, s.lh[i]) && InLog(g, slot);
    forall k | 0 <= k < |s.lh| ensures s.lh[k] != slot {
      assert IsHome(g, s.disk, s.lh[k]);
    }
    assert s.disk[slot] == s.cache[s.lh[i]];
    hide HeaderOk, Inv;
    assert c[s.lh[i]] == d[slot] == d0[slot] == s.disk[slot];
  }

  /** Recovery starts from a cache equal to the disk and keeps it so. */
  lemma ReplayedCache(g: Geometry, d0: Disk, lh: seq<nat>, d: Disk, c: Disk)
    requires HeaderOk(g, d0) && Copied(g, d0, d0, lh, d, c, |lh|)
    ensures HomeOf(g, c) == HomeOf(g, d)
    ensures var d' := d[g.start := HeadSector(d[g.start], [])];
            && HeaderOk(g, d') && d'[g.start][0] == 0 && HomeOf(g, d') == HomeOf(g, d) == Recovered(g, d0)
            && Survives(g, d', Recovered(g, d0))
  {
    ClearHead(g, d);
    hide Recovered, HeaderOk;
    forall b: nat | b < |c| && !InLog(g, b) ensures c[b] == d[b] {
      if b in lh {
        var i :| 0 <= i < |lh| && lh[i] == b;
      }
    }
    SameHome(g, c, d);
    SameHome(g, d[g.start := HeadSector(d[g.start], [])], d);
  }

  lemma LogWriteKeepsInv(g: Geometry, s: State, b: nat, data: Sector)
    requires Inv(g, s) && s.phase.Running? && IsHome(g, s.disk, b) && |s.lh| < Capacity(g)
    ensures Inv(g, s.(cache := s.cache[b := data], lh := LogBlock(s.lh, b)))
  {
  }

  lemma SameHome(g: Geometry, c: Disk, d: Disk)
    requires |c| == |d| && forall b: nat :: b < |c| && !InLog(g, b) ==> c[b] == d[b]
    ensures HomeOf(g, c) == HomeOf(g, d)
  {
  }

  lemma HomeAt(g: Geometry, d: Disk, b: nat)
    requires IsHome(g, d, b)
    ensures b in HomeOf(g, d) && HomeOf(g, d)[b] == d[b]
  {
  }

  /** An empty header and a cache that agrees with the disk: the state after a commit, and after recovery. */
  lemma QuietLog(g: Geometry, d: Disk, c: Disk)
    requires HeaderOk(g, d) && d[g.start][0] == 0 && |c| == |d| && HomeOf(g, c) == HomeOf(g, d)
    ensures Inv(g, State(d, c, [], 0, Finishing)) && Inv(g, State(d, c, [], 0, Running))
  {
    forall b: nat | IsHome(g, d, b) ensures c[b] == d[b] {
      assert c[b] == HomeOf(g, c)[b] && d[b] == HomeOf(g, d)[b];
    }
  }

  /** The machine invariant does not look at cached log blocks. */
  lemma CacheOfLogIrrelevant(g: Geometry, s: State, cache: Disk)
    requires Inv(g, s) && |cache| == |s.cache|
    requires forall b: nat :: b < |cache| && !InLog(g, b) ==> cache[b] == s.cache[b]
    ensures Inv(g, s.(cache := cache))
  {
  }
}
