/**
  The on-disk redo log: its layout, its header block, and what recovery makes of
  a disk image.  A disk is a sequence of sectors, a sector is BSIZE/4 words.
 */
module LogSpec {
  import opened Params

  const WORDS := 128          // BSIZE / sizeof(int)

  type Sector = s: seq<nat> | |s| == WORDS witness seq(WORDS, i => 0)
  type Disk = seq<Sector>
  type Home = map<nat, Sector>

  /** Superblock fields the log uses: the log occupies blocks [start, start + nlog). */
  datatype Geometry = Geometry(start: nat, nlog: nat)

  predicate InLog(g: Geometry, b: nat) {
    g.start <= b < g.start + g.nlog
  }

  predicate Fits(g: Geometry, d: Disk) {
    g.nlog >= 1 && g.start + g.nlog <= |d|
  }

  /** A file-system block: on the disk, and not part of the log. */
  predicate IsHome(g: Geometry, d: Disk, b: nat) {
    b < |d| && !InLog(g, b)
  }

  /** log_write refuses to grow the header past this many blocks. */
  function Capacity(g: Geometry): int {
    if g.nlog - 1 < LOGSIZE then g.nlog - 1 else LOGSIZE
  }

  predicate Distinct<T(==)>(s: seq<T>) {
    forall i, j :: 0 <= i < j < |s| ==> s[i] != s[j]
  }

  /** Block numbers that may stand in a log header. */
  predicate Loggable(g: Geometry, d: Disk, lh: seq<nat>) {
    && |lh| <= Capacity(g)
    && Distinct(lh)
    && forall i :: 0 <= i < |lh| ==> IsHome(g, d, lh[i])
  }

  /** The block numbers in the on-disk header; a count no header can have reads as an empty one. */
  function Header(g: Geometry, d: Disk): (lh: seq<nat>)
    ensures lh != [] ==> g.start + |lh| < |d|
  {
    if Fits(g, d) && d[g.start][0] <= Capacity(g) then d[g.start][1..1 + d[g.start][0]] else []
  }

  predicate HeaderOk(g: Geometry, d: Disk) {
    Fits(g, d) && d[g.start][0] <= Capacity(g) && Loggable(g, d, Header(g, d))
  }

  /** write_head: word 0 is the count, the next words are the block numbers, the rest stays. */
  function HeadSector(prior: Sector, lh: seq<nat>): (s: Sector)
    requires |lh| < WORDS
    ensures s[0] == |lh| && s[1..1 + |lh|] == lh
  {
    [|lh|] + lh + prior[1 + |lh|..]
  }

  function Position(lh: seq<nat>, b: nat): (i: nat)
    requires b in lh
    ensures i < |lh| && lh[i] == b && b !in lh[..i]
  {
    if lh[0] == b then 0 else 1 + Position(lh[1..], b)
  }

  /** The file-system blocks as they stand on the disk, log area left out. */
  function HomeOf(g: Geometry, d: Disk): Home {
    map b: nat | 0 <= b < |d| && IsHome(g, d, b) :: d[b]
  }

  /** Where recovery finds the contents of block b: in its log slot if the header names it. */
  function From(g: Geometry, d: Disk, b: nat): (k: nat)
    ensures IsHome(g, d, b) ==> k < |d|
  {
    if b in Header(g, d) then g.start + 1 + Position(Header(g, d), b) else b
  }

  /** The file-system blocks as a completed recovery leaves them. */
  function Recovered(g: Geometry, d: Disk): Home {
    map b: nat | 0 <= b < |d| && IsHome(g, d, b) :: d[From(g, d, b)]
  }

  lemma PositionUnique(lh: seq<nat>, i: nat)
    requires Distinct(lh) && i < |lh|
    ensures Position(lh, lh[i]) == i
  {
  }

  /** Clearing the header when every slot has reached its home changes nothing that recovery sees. */
  lemma RecoveredWithEmptyHeader(g: Geometry, d: Disk)
    requires HeaderOk(g, d) && d[g.start][0] == 0
    ensures Recovered(g, d) == HomeOf(g, d)
  {
  }

  /** Writing one log slot is invisible to recovery while the header is empty. */
  lemma SlotWriteInvisible(g: Geometry, d: Disk, i: nat, s: Sector)
    requires HeaderOk(g, d) && d[g.start][0] == 0
    requires 1 + i < g.nlog
    ensures HeaderOk(g, d[g.start + 1 + i := s])
    ensures Recovered(g, d[g.start + 1 + i := s]) == Recovered(g, d)
  {
    var d' := d[g.start + 1 + i := s];
    assert d'[g.start] == d[g.start];
  }

  /** Copying one slot to its home is invisible to recovery: recovery is idempotent block by block. */
  lemma InstallInvisible(g: Geometry, d: Disk, i: nat)
    requires HeaderOk(g, d) && i < d[g.start][0]
    ensures Header(g, d)[i] < |d|
    ensures var d' := d[Header(g, d)[i] := d[g.start + 1 + i]];
            HeaderOk(g, d') && Header(g, d') == Header(g, d) && Recovered(g, d') == Recovered(g, d)
  {
    InstallKeepsHeader(g, d, i);
    hide Header, HeaderOk, From;
    forall b: nat | IsHome(g, d, b)
      ensures d[Header(g, d)[i] := d[g.start + 1 + i]][From(g, d, b)] == d[From(g, d, b)]
    {
      InstallAt(g, d, i, b);
    }
  }

  lemma InstallKeepsHeader(g: Geometry, d: Disk, i: nat)
    requires HeaderOk(g, d) && i < d[g.start][0]
    ensures i < |Header(g, d)| && Header(g, d)[i] < |d| && g.start + 1 + i < |d|
    ensures var d' := d[Header(g, d)[i] := d[g.start + 1 + i]];
            HeaderOk(g, d') && Header(g, d') == Header(g, d) && forall b: nat :: From(g, d', b) == From(g, d, b)
  {
    var lh := Header(g, d);
    assert IsHome(g, d, lh[i]);
    var d' := d[lh[i] := d[g.start + 1 + i]];
    assert d'[g.start] == d[g.start] && Header(g, d') == lh;
    hide Header, Distinct;
  }

  lemma InstallAt(g: Geometry, d: Disk, i: nat, b: nat)
    requires HeaderOk(g, d) && i < d[g.start][0] && IsHome(g, d, b) && Header(g, d)[i] < |d|
    ensures d[Header(g, d)[i] := d[g.start + 1 + i]][From(g, d, b)] == d[From(g, d, b)]
  {
    var lh := Header(g, d);
    assert IsHome(g, d, lh[i]) && |lh| == d[g.start][0];
    PositionUnique(lh, i);
    assert b in lh ==> InLog(g, From(g, d, b));
  }

  /** Writing the header is the commit point: recovery now yields, for each named block, its slot. */
  lemma HeadWriteCommits(g: Geometry, d: Disk, lh: seq<nat>)
    requires Fits(g, d) && Loggable(g, d, lh)
    ensures var d' := d[g.start := HeadSector(d[g.start], lh)];
            HeaderOk(g, d') && Header(g, d') == lh
  {
    var d' := d[g.start := HeadSector(d[g.start], lh)];
    assert Header(g, d') == lh;
  }

  /** A way to recognise the recovered blocks: each named block is in its slot, each other block at home. */
  lemma RecoveredIs(g: Geometry, d: Disk, h: Disk)
    requires HeaderOk(g, d) && |h| == |d|
    requires forall i :: 0 <= i < |Header(g, d)| ==> h[Header(g, d)[i]] == d[g.start + 1 + i]
    requires forall b: nat :: IsHome(g, d, b) && b !in Header(g, d) ==> h[b] == d[b]
    ensures Recovered(g, d) == HomeOf(g, h)
  {
    hide Header, HeaderOk;
    forall b: nat | IsHome(g, d, b) ensures d[From(g, d, b)] == h[b] {
      if b in Header(g, d) {
        var p := Position(Header(g, d), b);
        assert h[Header(g, d)[p]] == d[g.start + 1 + p];
      }
    }
  }
}
