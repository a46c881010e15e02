/** The blocks a write allocates and passes to log_write, exactly. */
module FsLog {
  import opened Params
  import opened FsSpec
  import opened FsMap
  import opened FsBytes
  import Bitmap

  // ---- what balloc hands out ---------------------------------------------------------------------

  ghost function Elems(s: seq<nat>): set<nat> { set x | x in s }

  /** x is the lowest block not in use. */
  ghost predicate FirstFree(used: set<nat>, x: nat) { x !in used && forall c: nat :: c < x ==> c in used }

  /** Each block was the lowest free one when its turn came. */
  ghost predicate InOrder(used: set<nat>, got: seq<nat>) {
    forall i :: 0 <= i < |got| ==> FirstFree(used + Elems(got[..i]), got[i])
  }

  lemma InOrderMore(used: set<nat>, got: seq<nat>, more: seq<nat>)
    requires InOrder(used, got) && InOrder(used + Elems(got), more)
    ensures InOrder(used, got + more) && Elems(got + more) == Elems(got) + Elems(more)
  {
    var all := got + more;
    forall i | 0 <= i < |all| ensures FirstFree(used + Elems(all[..i]), all[i]) {
      if i < |got| {
        assert all[..i] == got[..i];
      } else {
        assert all[..i] == got + more[..i - |got|];
        assert used + Elems(all[..i]) == used + Elems(got) + Elems(more[..i - |got|]);
      }
    }
  }

  lemma OneInOrder(used: set<nat>, x: nat)
    requires FirstFree(used, x)
    ensures InOrder(used, [x]) && Elems([x]) == {x}
  {
    assert used + Elems([x][..0]) == used;
  }

  lemma {:induction false} InOrderDistinct(used: set<nat>, got: seq<nat>)
    requires InOrder(used, got)
    ensures |Elems(got)| == |got| && Elems(got) !! used
  {
    if got == [] {
      assert Elems(got) == {};
    } else {
      var n := |got| - 1;
      InOrderLess(used, got);
      InOrderDistinct(used, got[..n]);
      hide InOrder, Elems;
      assert |Elems(got[..n]) + {got[n]}| == n + 1;
    }
  }

  lemma InOrderLess(used: set<nat>, got: seq<nat>)
    requires InOrder(used, got) && got != []
    ensures var n := |got| - 1;
            && InOrder(used, got[..n]) && Elems(got) == Elems(got[..n]) + {got[n]}
            && got[n] !in Elems(got[..n]) && got[n] !in used
  {
    var n := |got| - 1;
    var front := got[..n];
    forall i | 0 <= i < n ensures FirstFree(used + Elems(front[..i]), front[i]) {
      assert front[..i] == got[..i];
    }
    assert got == front + [got[n]];
    assert FirstFree(used + Elems(got[..n]), got[n]);
  }

  /** There is only one way to hand out blocks in order. */
  lemma {:induction false} InOrderAlike(used: set<nat>, got: seq<nat>, other: seq<nat>, i: nat)
    requires InOrder(used, got) && InOrder(used, other) && i <= |got| && i <= |other|
    ensures got[..i] == other[..i]
  {
    if i == 0 {
    } else {
      InOrderAlike(used, got, other, i - 1);
      assert FirstFree(used + Elems(got[..i - 1]), got[i - 1]);
      assert FirstFree(used + Elems(other[..i - 1]), other[i - 1]);
      assert got[..i] == got[..i - 1] + [got[i - 1]] && other[..i] == other[..i - 1] + [other[i - 1]];
    }
  }

  function BBlock(bmapstart: nat, b: nat): nat { b / Bitmap.BPB + bmapstart }

  ghost function BBlocks(bmapstart: nat, got: seq<nat>): set<nat> {
    set i: nat | 0 <= i < |got| :: BBlock(bmapstart, got[i])
  }

  lemma BBlocksMore(bmapstart: nat, got: seq<nat>, more: seq<nat>)
    ensures BBlocks(bmapstart, got + more) == BBlocks(bmapstart, got) + BBlocks(bmapstart, more)
  {
    var all := got + more;
    forall x | x in BBlocks(bmapstart, got) + BBlocks(bmapstart, more) ensures x in BBlocks(bmapstart, all) {
      if x in BBlocks(bmapstart, got) {
        var i: nat :| i < |got| && BBlock(bmapstart, got[i]) == x;
        assert all[i] == got[i];
      } else {
        var i: nat :| i < |more| && BBlock(bmapstart, more[i]) == x;
        assert all[|got| + i] == more[i];
      }
    }
  }

  lemma BBlocksOne(bmapstart: nat, x: nat)
    ensures BBlocks(bmapstart, [x]) == {BBlock(bmapstart, x)}
    ensures BBlocks(bmapstart, []) == {} && Elems([x]) == {x} && Elems([]) == {}
  {
    assert [x][0] == x;
  }

  // ---- one call of bmap ----------------------------------------------------------------------------

  /** What bmap logs: a bitmap block and the zeroed block per allocation, and the indirect block when it
      gained an entry. */
  ghost function MapLog(bmapstart: nat, got: seq<nat>, bn: nat, a: Addrs): set<nat> {
    BBlocks(bmapstart, got) + Elems(got) + if got != [] && bn >= NDIRECT then {a[NDIRECT]} else {}
  }

  lemma MapLogNone(bmapstart: nat, bn: nat, a: Addrs)
    ensures MapLog(bmapstart, [], bn, a) == {}
  {
  }

  lemma MapLogOnce(bmapstart: nat, x: nat, bn: nat, a: Addrs)
    ensures MapLog(bmapstart, [x], bn, a) == {BBlock(bmapstart, x), x} + if bn >= NDIRECT then {a[NDIRECT]} else {}
  {
    BBlocksOne(bmapstart, x);
  }

  lemma MapLogTwice(bmapstart: nat, x: nat, y: nat, bn: nat, a: Addrs)
    requires bn >= NDIRECT
    ensures MapLog(bmapstart, [x, y], bn, a) == {BBlock(bmapstart, x), x} + MapLog(bmapstart, [y], bn, a)
  {
    assert [x, y] == [x] + [y];
    BBlocksMore(bmapstart, [x], [y]);
    BBlocksOne(bmapstart, x);
  }

  /** The blocks bmap has to allocate for file block bn. */
  function Need(a: Addrs, d: Disk, bn: nat): nat
    requires bn < MAXFILE
  {
    if Slot(a, d, DataSlot(bn)) != 0 then 0 else if bn >= NDIRECT && a[NDIRECT] == 0 then 2 else 1
  }

  // ---- a whole write, file blocks first up to past ---------------------------------------------------

  /** Where the file blocks are. */
  ghost function DataBlocks(a: Addrs, d: Disk, first: nat, past: nat): set<nat>
    requires past <= MAXFILE
  {
    set bn: nat | first <= bn < past :: Slot(a, d, DataSlot(bn))
  }

  /** How many of the file blocks have no address. */
  function Missing(a: Addrs, d: Disk, first: nat, past: nat): nat
    requires past <= MAXFILE
  {
    if past <= first then 0
    else Missing(a, d, first, past - 1) + if Slot(a, d, DataSlot(past - 1)) == 0 then 1 else 0
  }

  /** Some file block without an address belongs in the indirect block. */
  ghost predicate FillsIndirect(a: Addrs, d: Disk, first: nat, past: nat)
    requires past <= MAXFILE
  {
    exists bn: nat :: first <= bn < past && bn >= NDIRECT && Slot(a, d, DataSlot(bn)) == 0
  }

  /** The blocks the write has to allocate. */
  ghost function Needed(a: Addrs, d: Disk, first: nat, past: nat): nat
    requires past <= MAXFILE
  {
    Missing(a, d, first, past) + if a[NDIRECT] == 0 && FillsIndirect(a, d, first, past) then 1 else 0
  }

  ghost function FilledIndirect(a0: Addrs, d0: Disk, first: nat, past: nat, a: Addrs): set<nat>
    requires past <= MAXFILE
  {
    if FillsIndirect(a0, d0, first, past) then {a[NDIRECT]} else {}
  }

  /** What the write logs, before the inode. */
  ghost function WriteLog(bmapstart: nat, got: seq<nat>, a0: Addrs, d0: Disk, first: nat, past: nat, a: Addrs,
                          d: Disk): set<nat>
    requires past <= MAXFILE
  {
    BBlocks(bmapstart, got) + DataBlocks(a, d, first, past) + FilledIndirect(a0, d0, first, past, a)
  }

  /** File blocks first up to past have addresses now; the others have the address they had. */
  ghost predicate Kept(a0: Addrs, d0: Disk, a: Addrs, d: Disk, first: nat, past: nat)
    requires past <= MAXFILE
  {
    && (forall bn: nat :: bn < MAXFILE && !(first <= bn < past) ==>
          Slot(a, d, DataSlot(bn)) == Slot(a0, d0, DataSlot(bn)))
    && (forall bn: nat :: first <= bn < past ==> Slot(a, d, DataSlot(bn)) != 0)
    && (a0[NDIRECT] != 0 ==> a[NDIRECT] == a0[NDIRECT])
    && (a0[NDIRECT] == 0 ==> (a[NDIRECT] != 0 <==> FillsIndirect(a0, d0, first, past)))
  }

  /** writei's loop after file blocks first up to past: `got` was allocated and `log` is what is logged. */
  ghost predicate Logging(bmapstart: nat, a0: Addrs, d0: Disk, used0: set<nat>, log0: set<nat>, first: nat, past: nat,
                          a: Addrs, d: Disk, used: set<nat>, log: set<nat>, got: seq<nat>)
  {
    && first <= past <= MAXFILE && Kept(a0, d0, a, d, first, past)
    && InOrder(used0, got) && used == used0 + Elems(got) && |got| == Needed(a0, d0, first, past)
    && Elems(got) <= DataBlocks(a, d, first, past) + FilledIndirect(a0, d0, first, past, a)
    && log == log0 + WriteLog(bmapstart, got, a0, d0, first, past, a, d)
  }

  lemma LoggingNothing(bmapstart: nat, a: Addrs, d: Disk, used: set<nat>, log: set<nat>, first: nat)
    requires first <= MAXFILE
    ensures Logging(bmapstart, a, d, used, log, first, first, a, d, used, log, [])
  {
    if a[NDIRECT] == 0 { assert !FillsIndirect(a, d, first, first); }
    assert BBlocks(bmapstart, []) == {} && Elems([]) == {};
  }

  lemma LoggingTook(bmapstart: nat, a0: Addrs, d0: Disk, used0: set<nat>, log0: set<nat>, first: nat, past: nat,
                    a: Addrs, d: Disk, used: set<nat>, log: set<nat>, got: seq<nat>)
    requires Logging(bmapstart, a0, d0, used0, log0, first, past, a, d, used, log, got)
    ensures |got| == Needed(a0, d0, first, past) && InOrder(used0, got)
  {
  }

  /** Whatever else is logged besides. */
  lemma LoggingWith(bmapstart: nat, a0: Addrs, d0: Disk, used0: set<nat>, log0: set<nat>, first: nat, past: nat,
                    a: Addrs, d: Disk, used: set<nat>, log: set<nat>, got: seq<nat>, also: set<nat>)
    requires Logging(bmapstart, a0, d0, used0, log0, first, past, a, d, used, log, got)
    ensures Logging(bmapstart, a0, d0, used0, log0 + also, first, past, a, d, used, log + also, got)
  {
    hide Kept, InOrder, Needed, Elems, DataBlocks, FilledIndirect, BBlocks;
  }

  /** One pass: bmap, and the block written. */
  lemma LoggingStep(bmapstart: nat, a0: Addrs, d0: Disk, used0: set<nat>, log0: set<nat>, first: nat, bn: nat,
                    a: Addrs, d: Disk, used: set<nat>, log: set<nat>, got: seq<nat>,
                    a': Addrs, d1: Disk, b: nat, more: seq<nat>, others: set<nat>, block: Block)
    requires Logging(bmapstart, a0, d0, used0, log0, first, bn, a, d, used, log, got) && bn < MAXFILE
    requires WellMapped(a', d1) && Mapped(a, d, a', d1, bn, b, more, others) && InOrder(used, more)
    ensures Logging(bmapstart, a0, d0, used0, log0, first, bn + 1, a', d1[b := block], used + Elems(more),
                    log + MapLog(bmapstart, more, bn, a') + {b}, got + more)
  {
    hide Mapped, InOrder, Kept, DataBlocks, Elems, BBlocks, FilledIndirect, Need, Needed, Slot, WellMapped;
    MappedInDisk(a, d, a', d1, bn, b, more, others);
    KeptStep(a0, d0, a, d, first, bn, a', d1, b, more, others, block);
    InOrderMore(used0, got, more);
    BBlocksMore(bmapstart, got, more);
    NeededStep(a0, d0, first, bn, a, d);
    DataBlocksStep(a, d, first, bn, a', d1[b := block], b);
    LogStep(a0, d0, first, bn, a, d, a', d1, b, more, others);
  }

  lemma KeptStep(a0: Addrs, d0: Disk, a: Addrs, d: Disk, first: nat, bn: nat,
                 a': Addrs, d1: Disk, b: nat, more: seq<nat>, others: set<nat>, block: Block)
    requires first <= bn < MAXFILE && Kept(a0, d0, a, d, first, bn)
    requires WellMapped(a', d1) && Mapped(a, d, a', d1, bn, b, more, others)
    ensures Kept(a0, d0, a', d1[b := block], first, bn + 1)
    ensures forall c: nat :: c < MAXFILE ==>
              Slot(a', d1[b := block], DataSlot(c)) == if c == bn then b else Slot(a, d, DataSlot(c))
  {
    var d': Disk := d1[b := block];
    assert b != a'[NDIRECT] by { assert Slot(a', d1, NDIRECT) == a'[NDIRECT]; }
    forall c: nat | c < MAXFILE ensures Slot(a', d', DataSlot(c)) == if c == bn then b else Slot(a, d, DataSlot(c)) {
      SlotFrame(a', d1, b, block, DataSlot(c));
    }
    FillsStep(a0, d0, first, bn);
  }

  lemma FillsStep(a0: Addrs, d0: Disk, first: nat, bn: nat)
    requires first <= bn < MAXFILE
    ensures FillsIndirect(a0, d0, first, bn + 1)
       <==> FillsIndirect(a0, d0, first, bn) || (bn >= NDIRECT && Slot(a0, d0, DataSlot(bn)) == 0)
  {
  }

  lemma NeededStep(a0: Addrs, d0: Disk, first: nat, bn: nat, a: Addrs, d: Disk)
    requires first <= bn < MAXFILE && Kept(a0, d0, a, d, first, bn)
    ensures Needed(a0, d0, first, bn + 1) == Needed(a0, d0, first, bn) + Need(a, d, bn)
  {
    FillsStep(a0, d0, first, bn);
  }

  lemma DataBlocksStep(a: Addrs, d: Disk, first: nat, bn: nat, a': Addrs, d': Disk, b: nat)
    requires first <= bn < MAXFILE
    requires forall c: nat :: c < MAXFILE ==>
               Slot(a', d', DataSlot(c)) == if c == bn then b else Slot(a, d, DataSlot(c))
    ensures DataBlocks(a', d', first, bn + 1) == DataBlocks(a, d, first, bn) + {b}
  {
    hide Slot;
    forall x | x in DataBlocks(a, d, first, bn) + {b} ensures x in DataBlocks(a', d', first, bn + 1) {
      if x == b {
        assert Slot(a', d', DataSlot(bn)) == b;
      } else {
        var c: nat :| first <= c < bn && Slot(a, d, DataSlot(c)) == x;
        assert Slot(a', d', DataSlot(c)) == x;
      }
    }
  }

  lemma LogStep(a0: Addrs, d0: Disk, first: nat, bn: nat, a: Addrs, d: Disk, a': Addrs, d1: Disk, b: nat,
                more: seq<nat>, others: set<nat>)
    requires first <= bn < MAXFILE && Kept(a0, d0, a, d, first, bn) && Mapped(a, d, a', d1, bn, b, more, others)
    ensures |more| == Need(a, d, bn)
    ensures Elems(more) + (if more != [] && bn >= NDIRECT then {a'[NDIRECT]} else {})
            + FilledIndirect(a0, d0, first, bn, a) + {b}
         == {b} + FilledIndirect(a0, d0, first, bn + 1, a')
  {
    FillsStep(a0, d0, first, bn);
  }

  lemma {:induction false} NeededMore(a: Addrs, d: Disk, first: nat, past: nat, last: nat)
    requires first <= past <= last <= MAXFILE
    ensures Needed(a, d, first, past) <= Needed(a, d, first, last)
    decreases last - past
  {
    if past < last {
      FillsStep(a, d, first, past);
      NeededMore(a, d, first, past + 1, last);
    }
  }

  /** A pass that could not allocate all it needs leaves the write short. */
  lemma TooFew(bmapstart: nat, a0: Addrs, d0: Disk, used0: set<nat>, log0: set<nat>, first: nat, bn: nat,
               a: Addrs, d: Disk, used: set<nat>, log: set<nat>, got: seq<nat>, more: seq<nat>, past: nat)
    requires Logging(bmapstart, a0, d0, used0, log0, first, bn, a, d, used, log, got) && bn < past <= MAXFILE
    requires |more| < Need(a, d, bn)
    ensures |got + more| < Needed(a0, d0, first, past)
  {
    hide Needed, Need, Kept;
    NeededStep(a0, d0, first, bn, a, d);
    NeededMore(a0, d0, first, bn + 1, past);
  }

  // ---- counting ------------------------------------------------------------------------------------

  lemma {:induction false} Subset(s: set<nat>, t: set<nat>)
    requires s <= t
    ensures |s| <= |t|
    decreases s
  {
    if s != {} {
      var x :| x in s;
      Subset(s - {x}, t - {x});
    }
  }

  /** No two of the blocks are under one bitmap block. */
  ghost predicate Spread(bmapstart: nat, got: seq<nat>) {
    forall i, j :: 0 <= i < j < |got| ==> BBlock(bmapstart, got[i]) != BBlock(bmapstart, got[j])
  }

  lemma {:induction false} BBlocksCount(bmapstart: nat, got: seq<nat>)
    ensures |BBlocks(bmapstart, got)| <= |got|
    ensures Spread(bmapstart, got) ==> |BBlocks(bmapstart, got)| == |got|
  {
    if got == [] {
      assert BBlocks(bmapstart, got) == {};
    } else {
      var front, last := got[..|got| - 1], got[|got| - 1];
      assert got == front + [last];
      BBlocksCount(bmapstart, front);
      BBlocksMore(bmapstart, front, [last]);
      BBlocksOne(bmapstart, last);
      if Spread(bmapstart, got) {
        assert BBlock(bmapstart, last) !in BBlocks(bmapstart, front);
      }
    }
  }

  lemma {:induction false} DataBlocksCount(a: Addrs, d: Disk, first: nat, past: nat)
    requires first <= past <= MAXFILE
    ensures |DataBlocks(a, d, first, past)| <= past - first
    ensures WellMapped(a, d) && (forall bn: nat :: first <= bn < past ==> Slot(a, d, DataSlot(bn)) != 0) ==>
              |DataBlocks(a, d, first, past)| == past - first
  {
    if first == past {
      assert DataBlocks(a, d, first, past) == {};
    } else {
      hide Slot, DataBlocks, WellMapped;
      DataBlocksCount(a, d, first, past - 1);
      DataBlocksLast(a, d, first, past - 1);
    }
  }

  lemma DataBlocksLast(a: Addrs, d: Disk, first: nat, bn: nat)
    requires first <= bn < MAXFILE
    ensures DataBlocks(a, d, first, bn + 1) == DataBlocks(a, d, first, bn) + {Slot(a, d, DataSlot(bn))}
    ensures WellMapped(a, d) && Slot(a, d, DataSlot(bn)) != 0 ==>
              Slot(a, d, DataSlot(bn)) !in DataBlocks(a, d, first, bn)
  {
    hide Slot;
    forall x | x in DataBlocks(a, d, first, bn + 1)
      ensures x in DataBlocks(a, d, first, bn) + {Slot(a, d, DataSlot(bn))}
    {
    }
  }

  /** With no holes only blocks past the end are missing. */
  lemma {:induction false} MissingAtMost(a: Addrs, d: Disk, size: nat, first: nat, past: nat)
    requires first <= past <= MAXFILE
    ensures Missing(a, d, first, past) <= past - first
    ensures NoHoles(a, d, size) ==>
              Missing(a, d, first, past) <= if past <= BlocksFor(size) then 0 else past - Max(first, BlocksFor(size))
    decreases past
  {
    if first < past {
      MissingAtMost(a, d, size, first, past - 1);
    }
  }

  function One(b: bool): nat { if b then 1 else 0 }

  /** A write logs a block per file block, a bitmap block per allocation, and the indirect block. */
  lemma LoggedAtMost(bmapstart: nat, a0: Addrs, d0: Disk, used0: set<nat>, log0: set<nat>, first: nat, past: nat,
                     a: Addrs, d: Disk, used: set<nat>, log: set<nat>, got: seq<nat>)
    requires Logging(bmapstart, a0, d0, used0, log0, first, past, a, d, used, log, got)
    ensures |log| <= |log0| + (past - first) + Needed(a0, d0, first, past) + One(FillsIndirect(a0, d0, first, past))
  {
    BBlocksCount(bmapstart, got);
    DataBlocksCount(a, d, first, past);
    hide BBlocks, DataBlocks, FillsIndirect, Needed, Kept, InOrder, Elems;
  }

  /** ... and exactly that, with the bitmap blocks counted once each, if bitmap and inode are not the file's;
      the bound is reached if the allocations are under different bitmap blocks. */
  lemma LoggedExactly(bmapstart: nat, a0: Addrs, d0: Disk, used0: set<nat>, log0: set<nat>, first: nat, past: nat,
                      a: Addrs, d: Disk, used: set<nat>, log: set<nat>, got: seq<nat>)
    requires Logging(bmapstart, a0, d0, used0, log0, first, past, a, d, used, log, got) && WellMapped(a, d)
    requires log0 !! BBlocks(bmapstart, got) && log0 !! Own(a, d) && BBlocks(bmapstart, got) !! Own(a, d)
    ensures |log| == |log0| + (past - first) + |BBlocks(bmapstart, got)| + One(FillsIndirect(a0, d0, first, past))
    ensures Spread(bmapstart, got) ==> |BBlocks(bmapstart, got)| == Needed(a0, d0, first, past)
  {
    hide BBlocks, DataBlocks, FilledIndirect, Needed, Kept, InOrder, Elems, WellMapped, Own, Spread;
    BBlocksCount(bmapstart, got);
    FilesOwn(a0, d0, first, past, a, d);
    Apart(log0, BBlocks(bmapstart, got), DataBlocks(a, d, first, past), FilledIndirect(a0, d0, first, past, a));
  }

  lemma Apart(r: set<nat>, s: set<nat>, t: set<nat>, u: set<nat>)
    requires r !! s && r !! t && r !! u && s !! t && s !! u && t !! u
    ensures |r + (s + t + u)| == |r| + |s| + |t| + |u|
  {
    assert r !! (s + t + u) && (s + t) !! u;
  }

  lemma FilesOwn(a0: Addrs, d0: Disk, first: nat, past: nat, a: Addrs, d: Disk)
    requires first <= past <= MAXFILE && Kept(a0, d0, a, d, first, past) && WellMapped(a, d)
    ensures DataBlocks(a, d, first, past) <= Own(a, d) && FilledIndirect(a0, d0, first, past, a) <= Own(a, d)
    ensures DataBlocks(a, d, first, past) !! FilledIndirect(a0, d0, first, past, a)
    ensures |DataBlocks(a, d, first, past)| == past - first
    ensures |FilledIndirect(a0, d0, first, past, a)| == One(FillsIndirect(a0, d0, first, past))
  {
    DataBlocksCount(a, d, first, past);
    assert Slot(a, d, NDIRECT) == a[NDIRECT];
  }
}
