/**
  A pipe as a bounded queue with sleeping readers and writers.  `accepted` and `taken` are all
  bytes ever put in and taken out.  An event is what one process does between acquiring and
  releasing the pipe's lock: a whole call, or a call up to its next sleep.
 */
module PipeQueue {

  type Byte = bv8
  type Pid = nat

  const PIPESIZE := 512

  datatype Pipe = Pipe(accepted: seq<Byte>, taken: seq<Byte>, readopen: bool, writeopen: bool,
                       readers: set<Pid>, writers: set<Pid>)    // processes asleep on either channel

  datatype WriteResult = Wrote | WriteFailed | WriterSleeps(put: nat)
  datatype ReadResult = Got(bytes: seq<Byte>) | ReadFailed | ReaderSleeps

  datatype Event =
    | Write(pid: Pid, bytes: seq<Byte>, killed: bool)   // the bytes still to be written
    | Read(pid: Pid, n: int, killed: bool)
    | Close(writable: bool)
    | Kill(pid: Pid)                                    // a sleeper becomes runnable

  function Occupancy(p: Pipe): int { |p.accepted| - |p.taken| }

  function Min(a: int, b: int): int { if a < b then a else b }

  function Room(p: Pipe, n: nat): nat { if Occupancy(p) >= PIPESIZE then 0 else Min(n, PIPESIZE - Occupancy(p)) }

  /** pipewrite from acquire, or from the return of its sleep, to the next sleep or the end. */
  function WriteSpec(p: Pipe, pid: Pid, bytes: seq<Byte>, killed: bool): (Pipe, WriteResult) {
    var put := Room(p, |bytes|);
    var q := p.(accepted := p.accepted + bytes[..put]);
    if put == |bytes| then (q.(readers := {}), Wrote)
    else if !p.readopen || killed then (q, WriteFailed)
    else (q.(readers := {}, writers := p.writers + {pid}), WriterSleeps(put))
  }

  function ReadSpec(p: Pipe, pid: Pid, n: int, killed: bool): (Pipe, ReadResult) {
    if Occupancy(p) == 0 && p.writeopen then
      if killed then (p, ReadFailed) else (p.(readers := p.readers + {pid}), ReaderSleeps)
    else if |p.taken| > |p.accepted| || n <= 0 then (p.(writers := {}), Got([]))
    else
      var got := p.accepted[|p.taken|..|p.taken| + Min(n, Occupancy(p))];
      (p.(taken := p.taken + got, writers := {}), Got(got))
  }

  function CloseSpec(p: Pipe, writable: bool): Pipe {
    if writable then p.(writeopen := false, readers := {}) else p.(readopen := false, writers := {})
  }

  function Step(p: Pipe, e: Event): Pipe {
    match e
    case Write(pid, bytes, killed) => WriteSpec(p, pid, bytes, killed).0
    case Read(pid, n, killed) => ReadSpec(p, pid, n, killed).0
    case Close(w) => CloseSpec(p, w)
    case Kill(pid) => p.(readers := p.readers - {pid}, writers := p.writers - {pid})
  }

  function Run(p: Pipe, es: seq<Event>): Pipe {
    if es == [] then p else Step(Run(p, es[..|es| - 1]), es[|es| - 1])
  }

  const NEW := Pipe([], [], true, true, {}, {})

  // ---- what always holds -------------------------------------------------------------------------

  /** Bytes come out in the order they went in, none lost, repeated or made up. */
  predicate Fifo(p: Pipe) { p.taken <= p.accepted && 0 <= Occupancy(p) <= PIPESIZE }

  predicate WritersOk(p: Pipe) { p.writers != {} ==> Occupancy(p) == PIPESIZE && p.readopen }

  predicate ReadersOk(p: Pipe) { p.readers != {} ==> Occupancy(p) == 0 && p.writeopen }

  /** Both ends are closed, so pipeclose has freed the pipe. */
  predicate Freed(p: Pipe) { !p.readopen && !p.writeopen }

  lemma StepKeeps(p: Pipe, e: Event)
    requires Fifo(p) && WritersOk(p) && (p.readers != {} ==> p.writeopen)
    ensures Fifo(Step(p, e)) && WritersOk(Step(p, e)) && (Step(p, e).readers != {} ==> Step(p, e).writeopen)
  {
  }

  /** Over every interleaving: the queue law, the bound, no writer asleep without cause, and nobody
      asleep in a pipe that has been freed. */
  lemma {:induction false} QueueLaw(es: seq<Event>)
    ensures var p := Run(NEW, es);
            && p.taken + p.accepted[Min(|p.taken|, |p.accepted|)..] == p.accepted
            && 0 <= Occupancy(p) <= PIPESIZE
            && (p.writers != {} ==> Occupancy(p) == PIPESIZE && p.readopen)
            && (p.readers != {} ==> p.writeopen) && (Freed(p) ==> p.readers == {} == p.writers)
            && Fifo(p) && WritersOk(p)
  {
    if es != [] {
      QueueLaw(es[..|es| - 1]);
      StepKeeps(Run(NEW, es[..|es| - 1]), es[|es| - 1]);
    }
  }

  // ---- what the callers see --------------------------------------------------------------------------

  /** A read answers with the next queued bytes, as many as asked for and there, and takes just those. */
  lemma ReadTells(p: Pipe, pid: Pid, n: int, killed: bool)
    requires Fifo(p)
    ensures var (q, r) := ReadSpec(p, pid, n, killed);
            && q.accepted == p.accepted && q.readopen == p.readopen && q.writeopen == p.writeopen
            && (r.Got? <==> |p.taken| < |p.accepted| || !p.writeopen)
            && (r.ReadFailed? ==> killed) && (r.ReaderSleeps? ==> !killed)
            && q.taken == p.taken + (if r.Got? then r.bytes else [])
            && (r.Got? ==> |r.bytes| == if n <= 0 then 0 else Min(n, |p.accepted| - |p.taken|))
  {
    assert p.taken + [] == p.taken;
  }

  /** A write answers by the room there was, and puts in that much of what it was given. */
  lemma WriteTells(p: Pipe, pid: Pid, bytes: seq<Byte>, killed: bool)
    requires Fifo(p)
    ensures var (q, r) := WriteSpec(p, pid, bytes, killed);
            var free := PIPESIZE - (|p.accepted| - |p.taken|);
            && q.taken == p.taken && q.readopen == p.readopen && q.writeopen == p.writeopen
            && (r.Wrote? <==> |bytes| <= free)
            && (r.Wrote? ==> q.accepted == p.accepted + bytes)
            && (r.WriteFailed? <==> |bytes| > free && (!p.readopen || killed))
            && (r.WriterSleeps? ==> r.put == free)
            && (!r.Wrote? ==> q.accepted == p.accepted + bytes[..free])
  {
  }

  /** The bytes an event hands to its caller, by its answer. */
  function Handed(p: Pipe, e: Event): seq<Byte> {
    if !e.Read? then [] else
    match ReadSpec(p, e.pid, e.n, e.killed).1
    case Got(bytes) => bytes
    case _ => []
  }

  /** The bytes an event has taken from its caller: all, those it counts, or, failing, those there was room for. */
  function Given(p: Pipe, e: Event): seq<Byte>
    requires Fifo(p)
  {
    if !e.Write? then [] else
    match WriteSpec(p, e.pid, e.bytes, e.killed).1
    case Wrote => e.bytes
    case WriterSleeps(put) => if put <= |e.bytes| then e.bytes[..put] else e.bytes
    case WriteFailed => e.bytes[..Min(|e.bytes|, PIPESIZE - Occupancy(p))]
  }

  ghost function AllHanded(es: seq<Event>): seq<Byte> {
    if es == [] then []
    else AllHanded(es[..|es| - 1]) + Handed(Run(NEW, es[..|es| - 1]), es[|es| - 1])
  }

  ghost function AllGiven(es: seq<Event>): seq<Byte> {
    if es == [] then []
    else
      QueueLaw(es[..|es| - 1]);
      AllGiven(es[..|es| - 1]) + Given(Run(NEW, es[..|es| - 1]), es[|es| - 1])
  }

  lemma AnswersStep(p: Pipe, e: Event)
    requires Fifo(p)
    ensures Step(p, e).taken == p.taken + Handed(p, e)
    ensures Step(p, e).accepted == p.accepted + Given(p, e)
  {
    match e
    case Read(pid, n, killed) => ReadTells(p, pid, n, killed); assert p.accepted + [] == p.accepted;
    case Write(pid, bytes, killed) => WriteTells(p, pid, bytes, killed); assert p.taken + [] == p.taken;
    case _ => assert p.taken + [] == p.taken && p.accepted + [] == p.accepted;
  }

  /** What the readers were handed, over any run, is a prefix of what the writers gave, short by what is queued. */
  lemma {:induction false} AnswersLaw(es: seq<Event>)
    ensures AllHanded(es) <= AllGiven(es)
    ensures |AllGiven(es)| - |AllHanded(es)| <= PIPESIZE
    ensures Run(NEW, es).taken == AllHanded(es) && Run(NEW, es).accepted == AllGiven(es)
  {
    QueueLaw(es);
    if es != [] {
      AnswersLaw(es[..|es| - 1]);
      QueueLaw(es[..|es| - 1]);
      AnswersStep(Run(NEW, es[..|es| - 1]), es[|es| - 1]);
    }
  }

  // ---- readers: exactly when nobody sleeps beside bytes ----------------------------------------------

  /** pipewrite will find the pipe full, with its read end closed or its caller killed. */
  predicate GivesUp(p: Pipe, e: Event) {
    e.Write? && |e.bytes| > PIPESIZE - Occupancy(p) && (!p.readopen || e.killed)
  }

  /** Then it returns early, without waking the readers, and only then. */
  lemma GivesUpExactly(p: Pipe, e: Event)
    requires Fifo(p) && e.Write?
    ensures GivesUp(p, e) <==> WriteSpec(p, e.pid, e.bytes, e.killed).1.WriteFailed?
  {
  }

  /** With a reader asleep at the time. */
  predicate Strands(p: Pipe, e: Event) { GivesUp(p, e) && p.readers != {} }

  lemma ReadersExactlyOnce(p: Pipe, e: Event)
    requires Fifo(p) && ReadersOk(p)
    ensures ReadersOk(Step(p, e)) <==> !Strands(p, e)
  {
  }

  /** Some step of the run strands a reader. */
  predicate StrandsAt(es: seq<Event>, i: int) {
    0 <= i < |es| && Strands(Run(NEW, es[..i]), es[i])
  }

  lemma {:induction false} NeverStranded(es: seq<Event>)
    requires forall i :: 0 <= i < |es| ==> !StrandsAt(es, i)
    ensures ReadersOk(Run(NEW, es))
  {
    if es != [] {
      var n := |es| - 1;
      forall i | 0 <= i < n ensures !StrandsAt(es[..n], i) {
        assert !StrandsAt(es, i) && es[..n][..i] == es[..i];
      }
      NeverStranded(es[..n]);
      QueueLaw(es[..n]);
      assert !StrandsAt(es, n);
      ReadersExactlyOnce(Run(NEW, es[..n]), es[n]);
    }
  }

  /**
    In every state of a run a sleeping reader means an empty pipe with its write end open,
    if and only if no pipewrite of the run gives up while a reader sleeps.
   */
  lemma {:induction false} ReadersExactly(es: seq<Event>)
    ensures (forall i :: 0 <= i <= |es| ==> ReadersOk(Run(NEW, es[..i])))
       <==> (forall i :: 0 <= i < |es| ==> !StrandsAt(es, i))
  {
    if forall i :: 0 <= i < |es| ==> !StrandsAt(es, i) {
      forall i | 0 <= i <= |es| ensures ReadersOk(Run(NEW, es[..i])) {
        forall j | 0 <= j < |es[..i]| ensures !StrandsAt(es[..i], j) {
          assert !StrandsAt(es, j) && es[..i][..j] == es[..j];
        }
        NeverStranded(es[..i]);
      }
    } else {
      var i :| 0 <= i < |es| && StrandsAt(es, i);
      if ReadersOk(Run(NEW, es[..i])) {
        QueueLaw(es[..i]);
        ReadersExactlyOnce(Run(NEW, es[..i]), es[i]);
        assert es[..i + 1][..i] == es[..i];
        assert !ReadersOk(Run(NEW, es[..i + 1]));
      }
    }
  }

  /** It does happen: a reader sleeps, and a killed writer fills the pipe and gives up. */
  lemma StrandedReader(reader: Pid, writer: Pid, bytes: seq<Byte>) returns (es: seq<Event>)
    requires |bytes| > PIPESIZE
    ensures reader in Run(NEW, es).readers && Occupancy(Run(NEW, es)) == PIPESIZE
  {
    var e0, e1 := Read(reader, 1, false), Write(writer, bytes, true);
    es := [e0, e1];
    var p1 := Step(NEW, e0);
    assert Run(NEW, [e0]) == p1 by { assert [e0][..0] == []; }
    assert Run(NEW, es) == Step(p1, e1) by { assert es[..1] == [e0]; }
  }
}

/** The ring buffer and its 32-bit counters. */
module PipeRing {
  import opened Params
  import opened PipeQueue

  function Slot(k: nat): (r: nat)
    ensures r < PIPESIZE
  {
    k % PIPESIZE
  }

  function Wrap(k: nat): nat { k % TWO32 }

  /** 512 divides 2^32, so the slot of a byte does not depend on how often its counter wrapped. */
  lemma SlotSurvivesWrap(k: nat)
    ensures Slot(Wrap(k)) == Slot(k)
  {
    var q, r := k / TWO32, k % TWO32;
    assert k == q * TWO32 + r;
    assert k == (q * 0x80_0000) * PIPESIZE + r;
    SameRemainder(q * 0x80_0000, r);
  }

  lemma SameRemainder(m: nat, r: nat)
    ensures (m * PIPESIZE + r) % PIPESIZE == r % PIPESIZE
  {
  }

  lemma WrapNext(k: nat)
    ensures Wrap(Wrap(k) + 1) == Wrap(k + 1)
  {
  }

  /** Fewer than 512 apart, two bytes never meet in a slot. */
  lemma SlotsDiffer(j: nat, k: nat)
    requires j < k < j + PIPESIZE
    ensures Slot(j) != Slot(k)
  {
  }

  /** The wrapped counters still tell full and empty apart. */
  lemma CountersCompare(r: nat, w: nat)
    requires r <= w <= r + PIPESIZE
    ensures (Wrap(w) == Wrap(Wrap(r) + PIPESIZE)) <==> w == r + PIPESIZE
    ensures Wrap(w) == Wrap(r) <==> w == r
  {
  }

  class Ring {
    const data: array<Byte>
    var nread: nat
    var nwrite: nat
    var readopen: bool
    var writeopen: bool
    var readers: set<Pid>      // asleep on the channel &nread
    var writers: set<Pid>      // asleep on the channel &nwrite
    ghost var accepted: seq<Byte>
    ghost var taken: seq<Byte>

    ghost predicate Valid()
      reads this, data
    {
      && data.Length == PIPESIZE
      && taken <= accepted && |accepted| - |taken| <= PIPESIZE
      && nread == Wrap(|taken|) && nwrite == Wrap(|accepted|)
      && forall k :: |taken| <= k < |accepted| ==> data[Slot(k)] == accepted[k]
    }

    ghost function View(): Pipe
      reads this
    {
      Pipe(accepted, taken, readopen, writeopen, readers, writers)
    }

    /** pipealloc's initialisation. */
    constructor ()
      ensures Valid() && View() == NEW
    {
      data := new Byte[PIPESIZE];
      nread, nwrite := 0, 0;
      readopen, writeopen := true, true;
      readers, writers := {}, {};
      accepted, taken := [], [];
    }

    method Put(b: Byte)
      requires Valid() && |accepted| - |taken| < PIPESIZE
      modifies this`nwrite, this`accepted, data
      ensures Valid() && accepted == old(accepted) + [b]
    {
      hide Slot, Wrap;
      SlotSurvivesWrap(|accepted|);
      WrapNext(|accepted|);
      forall k | |taken| <= k < |accepted| ensures Slot(k) != Slot(|accepted|) {
        SlotsDiffer(k, |accepted|);
      }
      data[Slot(nwrite)] := b;
      nwrite := Wrap(nwrite + 1);
      accepted := accepted + [b];
    }

    method Take() returns (b: Byte)
      requires Valid() && |taken| < |accepted|
      modifies this`nread, this`taken
      ensures Valid() && b == accepted[|old(taken)|] && taken == old(taken) + [b]
    {
      hide Slot, Wrap;
      SlotSurvivesWrap(|taken|);
      WrapNext(|taken|);
      b := data[Slot(nread)];
      nread := Wrap(nread + 1);
      taken := taken + [b];
    }

    /** One turn of pipewrite: bytes i0 and up are still to be written. */
    method Pipewrite(pid: Pid, addr: seq<Byte>, i0: nat, killed: bool) returns (i: nat, r: WriteResult)
      requires Valid() && i0 <= |addr|
      modifies this, data
      ensures Valid() && View() == WriteSpec(old(View()), pid, addr[i0..], killed).0
      ensures r == WriteSpec(old(View()), pid, addr[i0..], killed).1
      ensures i0 <= i <= |addr| && accepted == old(accepted) + addr[i0..i] && taken == old(taken)
      ensures r.Wrote? <==> |addr| - i0 <= PIPESIZE - |old(accepted)| + |old(taken)|
      ensures i == if r.Wrote? then |addr| else i0 + PIPESIZE - |old(accepted)| + |old(taken)|
      ensures r.WriteFailed? <==> !r.Wrote? && (!old(readopen) || killed)
      ensures r.WriterSleeps? ==> r.put == i - i0
    {
      hide Slot, Wrap;
      i := i0;
      while i < |addr|
        invariant i0 <= i <= |addr| && Valid()
        invariant View() == old(View()).(accepted := old(accepted) + addr[i0..i])
      {
        CountersCompare(|taken|, |accepted|);
        if nwrite == Wrap(nread + PIPESIZE) {
          assert addr[i0..][..i - i0] == addr[i0..i];
          if !readopen || killed {
            return i, WriteFailed;
          }
          readers := {};
          writers := writers + {pid};
          return i, WriterSleeps(i - i0);
        }
        assert addr[i0..i + 1] == addr[i0..i] + [addr[i]];
        Put(addr[i]);
        i := i + 1;
      }
      assert addr[i0..][..i - i0] == addr[i0..i];
      readers := {};
      r := Wrote;
    }

    /** One turn of piperead. */
    method Piperead(pid: Pid, n: int, killed: bool) returns (r: ReadResult)
      requires Valid()
      modifies this
      ensures Valid() && View() == ReadSpec(old(View()), pid, n, killed).0
      ensures r == ReadSpec(old(View()), pid, n, killed).1
      ensures accepted == old(accepted) && taken == old(taken) + (if r.Got? then r.bytes else [])
      ensures r.Got? <==> |old(taken)| < |accepted| || !old(writeopen)
      ensures r.Got? ==> |r.bytes| == if n <= 0 then 0 else Min(n, |accepted| - |old(taken)|)
      ensures !r.Got? ==> r == if killed then ReadFailed else ReaderSleeps
    {
      hide Slot, Wrap;
      CountersCompare(|taken|, |accepted|);
      if nread == nwrite && writeopen {
        assert taken + [] == taken;
        if killed {
          return ReadFailed;
        }
        readers := readers + {pid};
        return ReaderSleeps;
      }
      var got := Copy(n);
      writers := {};
      r := Got(got);
      assert old(taken) + [] == old(taken);
    }

    /** piperead's copy loop: as much as there is, up to n. */
    method Copy(n: int) returns (got: seq<Byte>)
      requires Valid()
      modifies this`nread, this`taken
      ensures Valid() && taken == old(taken) + got
      ensures got == if n <= 0 then [] else accepted[|old(taken)|..|old(taken)| + Min(n, |accepted| - |old(taken)|)]
    {
      hide Slot, Wrap;
      got := [];
      ghost var t0 := |taken|;
      var i := 0;
      while i < n
        invariant Valid() && i == |got| <= (if n < 0 then 0 else n) && t0 + i <= |accepted|
        invariant got == accepted[t0..t0 + i] && taken == old(taken) + got
      {
        CountersCompare(|taken|, |accepted|);
        if nread == nwrite {
          break;
        }
        var b := Take();
        got := got + [b];
        i := i + 1;
      }
    }

    method Pipeclose(writable: bool) returns (freed: bool)
      requires Valid()
      modifies this
      ensures Valid() && View() == Step(old(View()), Close(writable))
      ensures freed <==> Freed(View())
    {
      if writable {
        writeopen := false;
        readers := {};
      } else {
        readopen := false;
        writers := {};
      }
      return !readopen && !writeopen;
    }
  }
}
