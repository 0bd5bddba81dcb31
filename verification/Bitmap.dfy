/** The record bitmap of src/record/bitmap.h: bit i is bit 7 - i % 8 of byte i / 8. */
module Bitmap {

  type Bits = seq<bv8>

  /** get_bit: BITMAP_HIGHEST_BIT >> (pos % BITMAP_WIDTH) */
  function Mask(pos: nat): bv8
  {
    match pos % 8
    case 0 => 0x80
    case 1 => 0x40
    case 2 => 0x20
    case 3 => 0x10
    case 4 => 0x08
    case 5 => 0x04
    case 6 => 0x02
    case _ => 0x01
  }

  /** init */
  function Init(size: nat): (bm: Bits)
    ensures |bm| == size && forall i :: 0 <= i < size ==> bm[i] == 0
  {
    if size == 0 then [] else Init(size - 1) + [0]
  }

  predicate IsSet(bm: Bits, pos: nat)
    requires pos / 8 < |bm|
  {
    bm[pos / 8] & Mask(pos) != 0
  }

  function Set(bm: Bits, pos: nat): (r: Bits)
    requires pos / 8 < |bm|
    ensures |r| == |bm|
  {
    bm[pos / 8 := bm[pos / 8] | Mask(pos)]
  }

  function Reset(bm: Bits, pos: nat): (r: Bits)
    requires pos / 8 < |bm|
    ensures |r| == |bm|
  {
    bm[pos / 8 := bm[pos / 8] & !Mask(pos)]
  }

  /** Masks of one byte are single bits, and different positions have different ones. */
  lemma MasksDiffer(b: bv8, i: nat, j: nat)
    ensures (b | Mask(i)) & Mask(i) != 0
    ensures (b & !Mask(i)) & Mask(i) == 0
    ensures i % 8 != j % 8 ==> ((b | Mask(i)) & Mask(j) != 0 <==> b & Mask(j) != 0)
    ensures i % 8 != j % 8 ==> ((b & !Mask(i)) & Mask(j) != 0 <==> b & Mask(j) != 0)
  {
  }

  /** Bits are numbered from the highest bit of the first byte: shifting the byte right leaves bit pos at the bottom. */
  lemma BitAt(bm: Bits, pos: nat)
    requires pos / 8 < |bm|
    ensures IsSet(bm, pos) <==> (bm[pos / 8] >> (7 - pos % 8)) & 1 == 1
  {
  }

  lemma SetBit(bm: Bits, i: nat, j: nat)
    requires i / 8 < |bm| && j / 8 < |bm|
    ensures IsSet(Set(bm, i), j) <==> i == j || IsSet(bm, j)
  {
    if i == j {
      SetOwn(bm, i);
    } else {
      SetOther(bm, i, j);
    }
  }

  lemma SetOwn(bm: Bits, i: nat)
    requires i / 8 < |bm|
    ensures IsSet(Set(bm, i), i)
  {
    MasksDiffer(bm[i / 8], i, i);
  }

  lemma OtherPlace(i: nat, j: nat)
    requires i != j
    ensures i / 8 != j / 8 || i % 8 != j % 8
  {
  }

  lemma SetSameByte(bm: Bits, i: nat, j: nat)
    requires i / 8 == j / 8 < |bm| && i % 8 != j % 8
    ensures IsSet(Set(bm, i), j) == IsSet(bm, j)
  {
    var byte := bm[i / 8];
    MasksDiffer(byte, i, j);
  }

  lemma SetOther(bm: Bits, i: nat, j: nat)
    requires i / 8 < |bm| && j / 8 < |bm| && i != j
    ensures IsSet(Set(bm, i), j) == IsSet(bm, j)
  {
    OtherPlace(i, j);
    if i / 8 == j / 8 { SetSameByte(bm, i, j); }
  }

  lemma ResetBit(bm: Bits, i: nat, j: nat)
    requires i / 8 < |bm| && j / 8 < |bm|
    ensures IsSet(Reset(bm, i), j) <==> i != j && IsSet(bm, j)
  {
    if i == j {
      ResetOwn(bm, i);
    } else {
      ResetOther(bm, i, j);
    }
  }

  lemma ResetOwn(bm: Bits, i: nat)
    requires i / 8 < |bm|
    ensures !IsSet(Reset(bm, i), i)
  {
    MasksDiffer(bm[i / 8], i, i);
  }

  lemma ResetSameByte(bm: Bits, i: nat, j: nat)
    requires i / 8 == j / 8 < |bm| && i % 8 != j % 8
    ensures IsSet(Reset(bm, i), j) == IsSet(bm, j)
  {
    var byte := bm[i / 8];
    MasksDiffer(byte, i, j);
  }

  lemma ResetOther(bm: Bits, i: nat, j: nat)
    requires i / 8 < |bm| && j / 8 < |bm| && i != j
    ensures IsSet(Reset(bm, i), j) == IsSet(bm, j)
  {
    OtherPlace(i, j);
    if i / 8 == j / 8 { ResetSameByte(bm, i, j); }
  }

  /** The number of set bits below n. */
  function Count(bm: Bits, n: nat): (c: nat)
    requires n <= 8 * |bm|
    ensures c <= n
  {
    if n == 0 then 0 else Count(bm, n - 1) + if IsSet(bm, n - 1) then 1 else 0
  }

  lemma {:induction false} CountSame(bm: Bits, bm': Bits, n: nat)
    requires |bm| == |bm'| && n <= 8 * |bm| && forall i: nat :: i < n ==> IsSet(bm, i) == IsSet(bm', i)
    ensures Count(bm, n) == Count(bm', n)
  {
    if n > 0 { CountSame(bm, bm', n - 1); }
  }

  lemma {:induction false} CountSet(bm: Bits, pos: nat, n: nat)
    requires pos < n <= 8 * |bm| && !IsSet(bm, pos)
    ensures Count(Set(bm, pos), n) == Count(bm, n) + 1
  {
    SetBit(bm, pos, n - 1);
    if pos == n - 1 {
      forall i: nat | i < n - 1 ensures IsSet(bm, i) == IsSet(Set(bm, pos), i) { SetBit(bm, pos, i); }
      CountSame(bm, Set(bm, pos), n - 1);
    } else {
      CountSet(bm, pos, n - 1);
    }
  }

  lemma {:induction false} CountReset(bm: Bits, pos: nat, n: nat)
    requires pos < n <= 8 * |bm| && IsSet(bm, pos)
    ensures Count(Reset(bm, pos), n) == Count(bm, n) - 1
  {
    ResetBit(bm, pos, n - 1);
    if pos == n - 1 {
      forall i: nat | i < n - 1 ensures IsSet(bm, i) == IsSet(Reset(bm, pos), i) { ResetBit(bm, pos, i); }
      CountSame(bm, Reset(bm, pos), n - 1);
    } else {
      CountReset(bm, pos, n - 1);
    }
  }

  /** All bits below n are set exactly when the count is n. */
  lemma {:induction false} CountFull(bm: Bits, n: nat)
    requires n <= 8 * |bm|
    ensures Count(bm, n) == n <==> forall i: nat :: i < n ==> IsSet(bm, i)
  {
    if n > 0 { CountFull(bm, n - 1); }
  }

  lemma {:induction false} CountEmpty(bm: Bits, n: nat)
    requires n <= 8 * |bm| && forall i: nat :: i < n ==> !IsSet(bm, i)
    ensures Count(bm, n) == 0
  {
    if n > 0 { CountEmpty(bm, n - 1); }
  }

  /** next_bit: the first position after curr whose bit has the wanted value, or maxN. */
  method NextBit(bit: bool, bm: Bits, maxN: nat, curr: int) returns (pos: nat)
    requires -1 <= curr < maxN <= 8 * |bm|
    ensures curr < pos <= maxN
    ensures pos < maxN ==> IsSet(bm, pos) == bit
    ensures forall i: nat :: curr < i < pos ==> IsSet(bm, i) != bit
  {
    pos := curr + 1;
    while pos < maxN
      invariant curr < pos <= maxN
      invariant forall i: nat :: curr < i < pos ==> IsSet(bm, i) != bit
    {
      if IsSet(bm, pos) == bit { return; }
      pos := pos + 1;
    }
  }
}
