/** The log file byte by byte: where each field of a record stands, in little-endian numbers. The offsets are those of
    src/recovery/log_defs.h. */
module LogFormat {
  import opened Common
  import opened LogCodec

  /** Four bytes as an unsigned number. */
  function Word(b: seq<Byte>, at: nat): (w: int)
    requires at + 4 <= |b|
  {
    var b0: int, b1: int, b2: int, b3: int := b[at], b[at + 1], b[at + 2], b[at + 3];
    b0 + 0x100 * b1 + 0x1_0000 * b2 + 0x100_0000 * b3
  }

  function Signed(w: int): int
  {
    if w >= 0x8000_0000 then w - 0x1_0000_0000 else w
  }

  lemma FourBytes(a: Byte, b: Byte, c: Byte, d: Byte)
    ensures DecLE([a, b, c, d]) == a as int + 0x100 * b as int + 0x1_0000 * c as int + 0x100_0000 * d as int
  {
    assert [a, b, c, d][1..] == [b, c, d] && [b, c, d][1..] == [c, d] && [c, d][1..] == [d] && [d][1..] == [];
    assert DecLE([d]) == d;
    assert DecLE([c, d]) == c as int + 0x100 * d as int;
  }

  lemma WordIs(b: seq<Byte>, at: nat)
    requires at + 4 <= |b|
    ensures DecLE(b[at..at + 4]) == Word(b, at) && DecS(b[at..at + 4]) == Signed(Word(b, at))
  {
    assert b[at..at + 4] == [b[at], b[at + 1], b[at + 2], b[at + 3]];
    FourBytes(b[at], b[at + 1], b[at + 2], b[at + 3]);
    assert Pow256(4) == 0x1_0000_0000;
  }

  lemma OneMoreByte(c: int, low: int, unit: int, high: int)
    ensures c + 256 * (low + unit * high) == (c + 256 * low) + (256 * unit) * high
  {
    assert 256 * (unit * high) == (256 * unit) * high;
  }

  lemma {:induction false} DecConcat(a: seq<Byte>, b: seq<Byte>)
    ensures DecLE(a + b) == DecLE(a) + Pow256(|a|) * DecLE(b)
  {
    if a == [] {
      assert a + b == b;
    } else {
      assert (a + b)[1..] == a[1..] + b;
      DecConcat(a[1..], b);
      OneMoreByte(a[0], DecLE(a[1..]), Pow256(|a| - 1), DecLE(b));
    }
  }

  /** Eight bytes: the low half and the high half. */
  lemma DoubleWordIs(b: seq<Byte>, at: nat)
    requires at + 8 <= |b|
    ensures DecLE(b[at..at + 8]) == Word(b, at) + 0x1_0000_0000 * Word(b, at + 4)
    ensures DecS(b[at..at + 8]) == Word(b, at) + 0x1_0000_0000 * Signed(Word(b, at + 4))
  {
    var low, high := b[at..at + 4], b[at + 4..at + 8];
    assert b[at..at + 8] == low + high;
    DecConcat(low, high);
    WordIs(b, at);
    WordIs(b, at + 4);
    assert Pow256(4) == 0x1_0000_0000 && Pow256(8) == 0x1_0000_0000_0000_0000;
  }

  /** The number of each record type in the file. */
  predicate HasType(r: Record, n: int)
  {
    match r
    case Update(_, _, _, _, _, _, _, _) => n == 0
    case Insert(_, _, _, _, _, _, _) => n == 1
    case Delete(_, _, _, _, _, _, _) => n == 2
    case Mark(BeginTxn, _, _, _) => n == 3
    case Mark(CommitTxn, _, _, _) => n == 4
    case Mark(AbortTxn, _, _, _) => n == 5
    case Mark(CheckpointMark, _, _, _) => n == 6
  }

  /** type, lsn, total length, transaction, previous lsn: at 0, 4, 8, 12 and 20. */
  lemma HeaderLayout(r: Record)
    requires WellFormed(r)
    ensures var b := Encode(r);
            && HasType(r, Signed(Word(b, 0))) && Signed(Word(b, 4)) == r.lsn && Word(b, 8) == |b|
            && Word(b, 12) + 0x1_0000_0000 * Signed(Word(b, 16)) == r.tid && Signed(Word(b, 20)) == r.prevLsn
  {
    var b := Encode(r);
    assert b + [] == b;
    HeaderFields(r, []);
    HeaderWords(b);
    TypeNumber(r);
  }

  lemma TypeNumber(r: Record)
    ensures HasType(r, TypeCode(r))
  {
  }

  lemma HeaderWords(b: seq<Byte>)
    requires 24 <= |b|
    ensures DecS(b[0..4]) == Signed(Word(b, 0)) && DecS(b[4..8]) == Signed(Word(b, 4)) && DecLE(b[8..12]) == Word(b, 8)
    ensures DecS(b[12..20]) == Word(b, 12) + 0x1_0000_0000 * Signed(Word(b, 16))
    ensures DecS(b[20..24]) == Signed(Word(b, 20))
  {
    WordIs(b, 0);
    WordIs(b, 4);
    WordIs(b, 8);
    DoubleWordIs(b, 12);
    WordIs(b, 20);
  }

  /** The value at an offset: its length, and its bytes. */
  ghost predicate ValueStands(b: seq<Byte>, at: nat, v: seq<Byte>)
  {
    at + 4 + |v| <= |b| && Signed(Word(b, at)) == |v| && b[at + 4..at + 4 + |v|] == v
  }

  /** The end of the record: page, slot, length of the table name, table name. */
  ghost predicate TailStands(b: seq<Byte>, at: nat, page: int, slot: int, table: seq<Byte>)
  {
    && at + 16 + |table| == |b| && Signed(Word(b, at)) == page && Signed(Word(b, at + 4)) == slot
    && Word(b, at + 8) + 0x1_0000_0000 * Word(b, at + 12) == |table| && b[at + 16..] == table
  }

  lemma ValueLayout(b: seq<Byte>, at: nat, v: seq<Byte>)
    requires HoldsValue(b, at, v)
    ensures ValueStands(b, at, v)
  {
    WordIs(b, at);
  }

  lemma TailLayout(b: seq<Byte>, at: nat, page: int, slot: int, table: seq<Byte>)
    requires HoldsTail(b, at, page, slot, table)
    ensures TailStands(b, at, page, slot, table)
  {
    WordIs(b, at);
    WordIs(b, at + 4);
    DoubleWordIs(b, at + 8);
  }

  /** An insertion or a deletion holds its value behind the header, an update the old and then the new one. */
  lemma BodyLayout(r: Record)
    requires WellFormed(r)
    ensures r.Mark? ==> |Encode(r)| == 24
    ensures r.Insert? || r.Delete? ==>
              && ValueStands(Encode(r), 24, r.value)
              && TailStands(Encode(r), 28 + |r.value|, r.page, r.slot, r.table)
    ensures r.Update? ==>
              && ValueStands(Encode(r), 24, r.before) && ValueStands(Encode(r), 28 + |r.before|, r.after)
              && TailStands(Encode(r), 32 + |r.before| + |r.after|, r.page, r.slot, r.table)
  {
    if r.Update? {
      TwoValuesHeld(r);
      ValueLayout(Encode(r), 24, r.before);
      ValueLayout(Encode(r), 28 + |r.before|, r.after);
      TailLayout(Encode(r), 32 + |r.before| + |r.after|, r.page, r.slot, r.table);
    } else if !r.Mark? {
      OneValueHeld(r);
      ValueLayout(Encode(r), 24, r.value);
      TailLayout(Encode(r), 28 + |r.value|, r.page, r.slot, r.table);
    }
  }
}
