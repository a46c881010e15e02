/** The free map: one bit per disk block, eight to a byte, BPB to a bitmap block. */
module Bitmap {
  import opened Params

  const BPB := 4096          // BSIZE * 8

  type Bytes = s: seq<bv8> | |s| == BSIZE witness seq(BSIZE, i => 0)

  /** 1 << k */
  function Mask(k: nat): bv8
    requires k < 8
  {
    if k == 0 then 1 else if k == 1 then 2 else if k == 2 then 4 else if k == 3 then 8
    else if k == 4 then 16 else if k == 5 then 32 else if k == 6 then 64 else 128
  }

  predicate TestBit(d: Bytes, i: nat)
    requires i < BPB
  {
    d[i / 8] & Mask(i % 8) != 0
  }

  function SetBit(d: Bytes, i: nat): Bytes
    requires i < BPB
  {
    d[i / 8 := d[i / 8] | Mask(i % 8)]
  }

  function ClearBit(d: Bytes, i: nat): Bytes
    requires i < BPB
  {
    d[i / 8 := d[i / 8] & !Mask(i % 8)]
  }

  lemma MasksApart(x: bv8, k: nat, l: nat)
    requires k < 8 && l < 8
    ensures (x | Mask(k)) & Mask(l) != 0 <==> k == l || x & Mask(l) != 0
    ensures (x & !Mask(k)) & Mask(l) != 0 <==> k != l && x & Mask(l) != 0
  {
  }

  lemma SetBitTests(d: Bytes, i: nat, j: nat)
    requires i < BPB && j < BPB
    ensures TestBit(SetBit(d, i), j) <==> i == j || TestBit(d, j)
  {
    if i / 8 == j / 8 { MasksApart(d[i / 8], i % 8, j % 8); }
  }

  lemma ClearBitTests(d: Bytes, i: nat, j: nat)
    requires i < BPB && j < BPB
    ensures TestBit(ClearBit(d, i), j) <==> i != j && TestBit(d, j)
  {
    if i / 8 == j / 8 { MasksApart(d[i / 8], i % 8, j % 8); }
  }

  /** Is block b in use, according to the free map? */
  predicate Marked(bitmap: seq<Bytes>, b: nat)
    requires b / BPB < |bitmap|
  {
    TestBit(bitmap[b / BPB], b % BPB)
  }

  /** The blocks below `size` that are in use. */
  ghost function Used(bitmap: seq<Bytes>, size: nat): set<nat>
    requires size <= |bitmap| * BPB
  {
    set b: nat | 0 <= b < size && Marked(bitmap, b)
  }

  lemma MarkOne(bitmap: seq<Bytes>, size: nat, b: nat)
    requires size <= |bitmap| * BPB && b < size
    ensures Used(bitmap[b / BPB := SetBit(bitmap[b / BPB], b % BPB)], size) == Used(bitmap, size) + {b}
  {
    var m := bitmap[b / BPB := SetBit(bitmap[b / BPB], b % BPB)];
    forall c: nat | 0 <= c < size ensures Marked(m, c) <==> c == b || Marked(bitmap, c) {
      if c / BPB == b / BPB { SetBitTests(bitmap[b / BPB], b % BPB, c % BPB); }
    }
  }

  lemma UnmarkOne(bitmap: seq<Bytes>, size: nat, b: nat)
    requires size <= |bitmap| * BPB && b < size
    ensures Used(bitmap[b / BPB := ClearBit(bitmap[b / BPB], b % BPB)], size) == Used(bitmap, size) - {b}
  {
    var m := bitmap[b / BPB := ClearBit(bitmap[b / BPB], b % BPB)];
    forall c: nat | 0 <= c < size ensures Marked(m, c) <==> c != b && Marked(bitmap, c) {
      if c / BPB == b / BPB { ClearBitTests(bitmap[b / BPB], b % BPB, c % BPB); }
    }
  }
}
