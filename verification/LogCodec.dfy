/** Log records as bytes: serialize/deserialize of src/recovery/log_manager.h, the validation in
    log_manager.cpp, and the loader of log_recovery.cpp that stops at a torn tail. */
module LogCodec {
  import opened Common

  const LOG_HEADER_SIZE: nat := 24

  type Byte = x: int | 0 <= x < 256

  // ---------- little-endian integers ----------

  function EncLE(n: nat, v: nat): (r: seq<Byte>)
    ensures |r| == n
  {
    if n == 0 then [] else [v % 256] + EncLE(n - 1, v / 256)
  }

  function DecLE(s: seq<Byte>): (r: nat)
    ensures r < Pow256(|s|)
  {
    if s == [] then 0 else s[0] + 256 * DecLE(s[1..])
  }

  lemma {:induction false} DecEnc(n: nat, v: nat)
    requires v < Pow256(n)
    ensures DecLE(EncLE(n, v)) == v
  {
    if n > 0 {
      assert EncLE(n, v)[1..] == EncLE(n - 1, v / 256);
      DecEnc(n - 1, v / 256);
    }
  }

  lemma {:induction false} EncDec(s: seq<Byte>)
    ensures EncLE(|s|, DecLE(s)) == s
  {
    if s != [] {
      EncDec(s[1..]);
      assert DecLE(s) % 256 == s[0] && DecLE(s) / 256 == DecLE(s[1..]);
    }
  }

  /** Two's complement on n bytes. */
  function EncS(n: nat, v: int): (r: seq<Byte>)
    ensures |r| == n
  {
    EncLE(n, if v < 0 && v + Pow256(n) >= 0 then v + Pow256(n) else if v < 0 then 0 else v)
  }

  function DecS(s: seq<Byte>): (r: int)
  {
    var u := DecLE(s);
    if 2 * u >= Pow256(|s|) then u - Pow256(|s|) else u
  }

  predicate InS(n: nat, v: int)
  {
    0 <= 2 * v + Pow256(n) && 2 * v < Pow256(n)
  }

  lemma SignedRoundTrip(n: nat, v: int)
    requires InS(n, v)
    ensures DecS(EncS(n, v)) == v
  {
    DecEnc(n, if v < 0 then v + Pow256(n) else v);
  }

  lemma SignedEncDec(s: seq<Byte>)
    ensures InS(|s|, DecS(s)) && EncS(|s|, DecS(s)) == s
  {
    EncDec(s);
  }

  // ---------- records ----------

  datatype Kind = BeginTxn | CommitTxn | AbortTxn | CheckpointMark

  datatype Record =
    | Mark(kind: Kind, lsn: int, tid: int, prevLsn: int)
    | Insert(lsn: int, tid: int, prevLsn: int, value: seq<Byte>, page: int, slot: int, table: seq<Byte>)
    | Delete(lsn: int, tid: int, prevLsn: int, value: seq<Byte>, page: int, slot: int, table: seq<Byte>)
    | Update(lsn: int, tid: int, prevLsn: int, before: seq<Byte>, after: seq<Byte>, page: int, slot: int,
             table: seq<Byte>)

  /** LogType: UPDATE, INSERT, DELETE, begin, commit, ABORT, CHECKPOINT. */
  function TypeCode(r: Record): (c: nat)
    ensures c <= 6
  {
    match r
    case Update(_, _, _, _, _, _, _, _) => 0
    case Insert(_, _, _, _, _, _, _) => 1
    case Delete(_, _, _, _, _, _, _) => 2
    case Mark(BeginTxn, _, _, _) => 3
    case Mark(CommitTxn, _, _, _) => 4
    case Mark(AbortTxn, _, _, _) => 5
    case Mark(CheckpointMark, _, _, _) => 6
  }

  function EncBytes(v: seq<Byte>): (r: seq<Byte>)
    ensures |r| == 4 + |v|
  {
    EncS(4, |v|) + v
  }

  function EncTail(page: int, slot: int, table: seq<Byte>): (r: seq<Byte>)
    ensures |r| == 16 + |table|
  {
    EncS(4, page) + EncS(4, slot) + EncLE(8, |table|) + table
  }

  function Body(r: Record): (b: seq<Byte>)
  {
    match r
    case Mark(_, _, _, _) => []
    case Insert(_, _, _, v, p, s, t) => EncBytes(v) + EncTail(p, s, t)
    case Delete(_, _, _, v, p, s, t) => EncBytes(v) + EncTail(p, s, t)
    case Update(_, _, _, v, w, p, s, t) => EncBytes(v) + EncBytes(w) + EncTail(p, s, t)
  }

  function Header(code: nat, lsn: int, totLen: nat, tid: int, prevLsn: int): (h: seq<Byte>)
    ensures |h| == LOG_HEADER_SIZE
  {
    EncS(4, code) + EncS(4, lsn) + EncLE(4, totLen) + EncS(8, tid) + EncS(4, prevLsn)
  }

  function TotLen(r: Record): (n: nat)
  {
    LOG_HEADER_SIZE + |Body(r)|
  }

  function Encode(r: Record): (b: seq<Byte>)
    ensures |b| == TotLen(r) >= LOG_HEADER_SIZE
  {
    Header(TypeCode(r), r.lsn, TotLen(r), r.tid, r.prevLsn) + Body(r)
  }

  /** The fields fit their machine types and the record fits the log buffer. */
  predicate WellFormed(r: Record)
  {
    && InS(4, r.lsn) && InS(8, r.tid) && InS(4, r.prevLsn)
    && TotLen(r) <= LOG_BUFFER_SIZE
    && (!r.Mark? ==> InS(4, r.page) && InS(4, r.slot))
  }

  /** Reading the header back. */
  lemma HeaderFields(r: Record, rest: seq<Byte>)
    requires WellFormed(r)
    ensures var b := Encode(r) + rest;
            && DecS(b[0..4]) == TypeCode(r) && DecS(b[4..8]) == r.lsn && DecLE(b[8..12]) == TotLen(r)
            && DecS(b[12..20]) == r.tid && DecS(b[20..24]) == r.prevLsn
  {
    var c, l, n, t, p := EncS(4, TypeCode(r)), EncS(4, r.lsn), EncLE(4, TotLen(r)), EncS(8, r.tid), EncS(4, r.prevLsn);
    FivePieces(c, l, n, t, p, Body(r), rest);
    SignedRoundTrip(4, TypeCode(r));
    SignedRoundTrip(4, r.lsn);
    DecEnc(4, TotLen(r));
    SignedRoundTrip(8, r.tid);
    SignedRoundTrip(4, r.prevLsn);
  }

  lemma FivePieces(c: seq<Byte>, l: seq<Byte>, n: seq<Byte>, t: seq<Byte>, p: seq<Byte>, body: seq<Byte>,
                   rest: seq<Byte>)
    requires |c| == |l| == |n| == |p| == 4 && |t| == 8
    ensures var b := c + l + n + t + p + body + rest;
            b[0..4] == c && b[4..8] == l && b[8..12] == n && b[12..20] == t && b[20..24] == p
  {
  }

  /** A length-prefixed value at an offset. */
  ghost predicate HoldsValue(b: seq<Byte>, at: nat, v: seq<Byte>)
  {
    at + 4 + |v| <= |b| && DecS(b[at..at + 4]) == |v| && b[at + 4..at + 4 + |v|] == v
  }

  /** Record id and table name at an offset, up to the end. */
  ghost predicate HoldsTail(b: seq<Byte>, at: nat, page: int, slot: int, table: seq<Byte>)
  {
    && at + 16 + |table| == |b|
    && DecS(b[at..at + 4]) == page && DecS(b[at + 4..at + 8]) == slot
    && DecLE(b[at + 8..at + 16]) == |table| && b[at + 16..] == table
  }

  lemma ValueHeld(a: seq<Byte>, v: seq<Byte>, c: seq<Byte>)
    requires |v| <= LOG_BUFFER_SIZE
    ensures HoldsValue(a + EncBytes(v) + c, |a|, v)
  {
    var b := a + EncBytes(v) + c;
    assert b[|a|..|a| + 4] == EncS(4, |v|);
    assert b[|a| + 4..|a| + 4 + |v|] == v;
    SignedRoundTrip(4, |v|);
  }

  lemma TailHeld(a: seq<Byte>, page: int, slot: int, table: seq<Byte>)
    requires InS(4, page) && InS(4, slot) && |table| <= LOG_BUFFER_SIZE
    ensures HoldsTail(a + EncTail(page, slot, table), |a|, page, slot, table)
  {
    var b, n := a + EncTail(page, slot, table), |a|;
    assert b[n..n + 4] == EncS(4, page);
    assert b[n + 4..n + 8] == EncS(4, slot);
    assert b[n + 8..n + 16] == EncLE(8, |table|);
    assert b[n + 16..] == table;
    SignedRoundTrip(4, page);
    SignedRoundTrip(4, slot);
    DecEnc(8, |table|);
  }

  lemma Assoc(a: seq<Byte>, b: seq<Byte>, c: seq<Byte>)
    ensures a + (b + c) == a + b + c
  {
  }

  lemma Cut(b: seq<Byte>, i: nat, j: nat, k: nat)
    requires i <= j <= k <= |b|
    ensures b == b[..i] + (b[i..j] + b[j..k] + b[k..])
  {
  }

  lemma OneValueHeld(r: Record)
    requires WellFormed(r) && (r.Insert? || r.Delete?)
    ensures HoldsValue(Encode(r), 24, r.value) && HoldsTail(Encode(r), 28 + |r.value|, r.page, r.slot, r.table)
  {
    var h := Header(TypeCode(r), r.lsn, TotLen(r), r.tid, r.prevLsn);
    ValueHeld(h, r.value, EncTail(r.page, r.slot, r.table));
    TailHeld(h + EncBytes(r.value), r.page, r.slot, r.table);
    Assoc(h, EncBytes(r.value), EncTail(r.page, r.slot, r.table));
  }

  lemma TwoValuesHeld(r: Record)
    requires WellFormed(r) && r.Update?
    ensures HoldsValue(Encode(r), 24, r.before) && HoldsValue(Encode(r), 28 + |r.before|, r.after)
    ensures HoldsTail(Encode(r), 32 + |r.before| + |r.after|, r.page, r.slot, r.table)
  {
    TwoValuesIn(Header(TypeCode(r), r.lsn, TotLen(r), r.tid, r.prevLsn), r.before, r.after, r.page, r.slot, r.table);
  }

  lemma TwoValuesIn(h: seq<Byte>, before: seq<Byte>, after: seq<Byte>, page: int, slot: int, table: seq<Byte>)
    requires |h| == 24 && InS(4, page) && InS(4, slot)
    requires |before| <= LOG_BUFFER_SIZE && |after| <= LOG_BUFFER_SIZE && |table| <= LOG_BUFFER_SIZE
    ensures var b := h + (EncBytes(before) + EncBytes(after) + EncTail(page, slot, table));
            && HoldsValue(b, 24, before) && HoldsValue(b, 28 + |before|, after)
            && HoldsTail(b, 32 + |before| + |after|, page, slot, table)
  {
    var v, w, t := EncBytes(before), EncBytes(after), EncTail(page, slot, table);
    ValueHeld(h, before, w + t);
    ValueHeld(h + v, after, t);
    TailHeld(h + v + w, page, slot, table);
    Regroup(h, v, w, t);
  }

  lemma Regroup(h: seq<Byte>, v: seq<Byte>, w: seq<Byte>, t: seq<Byte>)
    ensures h + (v + w + t) == h + v + (w + t) == h + v + w + t
  {
  }

  // ---------- serialize: copies into the log buffer at a moving offset ----------

  function Put(s: seq<Byte>, at: nat, src: seq<Byte>): (r: seq<Byte>)
    requires at + |src| <= |s|
    ensures |r| == |s|
  {
    s[..at] + src + s[at + |src|..]
  }

  lemma PutPut(s: seq<Byte>, at: nat, a: seq<Byte>, b: seq<Byte>)
    requires at + |a| + |b| <= |s|
    ensures Put(Put(s, at, a), at + |a|, b) == Put(s, at, a + b)
  {
  }

  /** memcpy. */
  method Copy(dest: array<Byte>, at: nat, src: seq<Byte>)
    requires at + |src| <= dest.Length
    modifies dest
    ensures dest[..] == Put(old(dest[..]), at, src)
  {
    for i := 0 to |src|
      invariant forall k :: 0 <= k < dest.Length ==> dest[k] == if at <= k < at + i then src[k - at] else old(dest[k])
    {
      dest[at + i] := src[i];
    }
  }

  /** Copies the pieces one after the other. */
  method CopyAll(dest: array<Byte>, at: nat, pieces: seq<seq<Byte>>)
    requires at + |Flatten(pieces)| <= dest.Length
    modifies dest
    ensures dest[..] == Put(old(dest[..]), at, Flatten(pieces))
    decreases |pieces|
  {
    if pieces != [] {
      Copy(dest, at, pieces[0]);
      CopyAll(dest, at + |pieces[0]|, pieces[1..]);
      PutPut(old(dest[..]), at, pieces[0], Flatten(pieces[1..]));
    } else {
      assert dest[..] == Put(dest[..], at, []);
    }
  }

  function Flatten(pieces: seq<seq<Byte>>): (r: seq<Byte>)
  {
    if pieces == [] then [] else pieces[0] + Flatten(pieces[1..])
  }

  /** The header, piece by piece: type, lsn, total length, transaction, previous lsn. */
  function HeaderPieces(r: Record): seq<seq<Byte>>
  {
    [EncS(4, TypeCode(r)), EncS(4, r.lsn), EncLE(4, TotLen(r)), EncS(8, r.tid), EncS(4, r.prevLsn)]
  }

  function TailPieces(page: int, slot: int, table: seq<Byte>): seq<seq<Byte>>
  {
    [EncS(4, page), EncS(4, slot), EncLE(8, |table|), table]
  }

  function BodyPieces(r: Record): seq<seq<Byte>>
  {
    match r
    case Mark(_, _, _, _) => []
    case Insert(_, _, _, v, p, s, t) => [EncS(4, |v|), v] + TailPieces(p, s, t)
    case Delete(_, _, _, v, p, s, t) => [EncS(4, |v|), v] + TailPieces(p, s, t)
    case Update(_, _, _, v, w, p, s, t) => [EncS(4, |v|), v] + ([EncS(4, |w|), w] + TailPieces(p, s, t))
  }

  lemma {:induction false} FlattenConcat(a: seq<seq<Byte>>, b: seq<seq<Byte>>)
    ensures Flatten(a + b) == Flatten(a) + Flatten(b)
  {
    if a == [] {
      assert a + b == b;
    } else {
      assert (a + b)[1..] == a[1..] + b;
      FlattenConcat(a[1..], b);
    }
  }

  lemma FlattenPair(a: seq<Byte>, b: seq<Byte>)
    ensures Flatten([a, b]) == a + b
  {
    assert [a, b][1..] == [b] && [b][1..] == [];
    assert Flatten([b]) == b + [] == b;
  }

  lemma TailFlattens(page: int, slot: int, table: seq<Byte>)
    ensures Flatten(TailPieces(page, slot, table)) == EncTail(page, slot, table)
  {
    FlattenPair(EncS(4, page), EncS(4, slot));
    FlattenPair(EncLE(8, |table|), table);
    FlattenConcat([EncS(4, page), EncS(4, slot)], [EncLE(8, |table|), table]);
    assert TailPieces(page, slot, table) == [EncS(4, page), EncS(4, slot)] + [EncLE(8, |table|), table];
  }

  lemma HeaderFlattens(r: Record)
    ensures Flatten(HeaderPieces(r)) == Header(TypeCode(r), r.lsn, TotLen(r), r.tid, r.prevLsn)
  {
    var a, b, c, d, e := EncS(4, TypeCode(r)), EncS(4, r.lsn), EncLE(4, TotLen(r)), EncS(8, r.tid), EncS(4, r.prevLsn);
    FlattenPair(a, b);
    FlattenPair(d, e);
    assert [c, d, e][1..] == [d, e];
    FlattenConcat([a, b], [c, d, e]);
    assert HeaderPieces(r) == [a, b] + [c, d, e];
  }

  lemma BodyFlattens(r: Record)
    ensures Flatten(BodyPieces(r)) == Body(r)
  {
    if !r.Mark? {
      var t := TailPieces(r.page, r.slot, r.table);
      TailFlattens(r.page, r.slot, r.table);
      if r.Update? {
        FlattenPair(EncS(4, |r.before|), r.before);
        FlattenPair(EncS(4, |r.after|), r.after);
        FlattenConcat([EncS(4, |r.after|), r.after], t);
        FlattenConcat([EncS(4, |r.before|), r.before], [EncS(4, |r.after|), r.after] + t);
        Assoc(EncBytes(r.before), EncBytes(r.after), EncTail(r.page, r.slot, r.table));
      } else {
        FlattenPair(EncS(4, |r.value|), r.value);
        FlattenConcat([EncS(4, |r.value|), r.value], t);
      }
    }
  }

  /** serialize: the copies leave exactly the encoding in the buffer and touch nothing else. */
  method Serialize(dest: array<Byte>, at: nat, r: Record)
    requires at + TotLen(r) <= dest.Length
    modifies dest
    ensures dest[..] == Put(old(dest[..]), at, Encode(r))
  {
    HeaderFlattens(r);
    BodyFlattens(r);
    CopyAll(dest, at, HeaderPieces(r));
    CopyAll(dest, at + LOG_HEADER_SIZE, BodyPieces(r));
    PutPut(old(dest[..]), at, Header(TypeCode(r), r.lsn, TotLen(r), r.tid, r.prevLsn), Body(r));
  }

  // ---------- validation ----------

  /** advance_checked: the new offset, unless it would pass the end. */
  function Advance(offset: nat, amount: nat, total: nat): (r: Option<nat>)
    ensures r.Some? <==> offset + amount <= total
    ensures r.Some? ==> r.value == offset + amount
  {
    if amount > total || offset > total - amount then None else Some(offset + amount)
  }

  /** The offset behind `count` length-prefixed values. */
  ghost function EndOfValues(src: seq<Byte>, total: nat, offset: nat, count: nat): (r: Option<nat>)
    requires total <= |src|
    ensures r.Some? ==> offset + 4 * count <= r.value && (count > 0 ==> r.value <= total)
    decreases count
  {
    if count == 0 then Some(offset)
    else if offset + 4 > total then None
    else
      var size := DecS(src[offset..offset + 4]);
      if size < 0 || offset + 4 + size > total then None else EndOfValues(src, total, offset + 4 + size, count - 1)
  }

  ghost predicate ValidLayout(src: seq<Byte>, total: nat, count: nat)
    requires total <= |src|
  {
    var e := EndOfValues(src, total, LOG_HEADER_SIZE, count);
    e.Some? && e.value + 16 <= total && e.value + 16 + DecLE(src[e.value + 8..e.value + 16]) == total
  }

  /** validate_record_with_table_name. Every read lies below `total`. */
  method Validate(src: seq<Byte>, total: nat, hasTwoRecords: bool) returns (ok: bool)
    requires total <= |src|
    ensures ok <==> ValidLayout(src, total, if hasTwoRecords then 2 else 1)
  {
    var offset: nat := LOG_HEADER_SIZE;
    var count := if hasTwoRecords then 2 else 1;
    for i := 0 to count
      invariant EndOfValues(src, total, LOG_HEADER_SIZE, count) == EndOfValues(src, total, offset, count - i)
    {
      var next := Advance(offset, 4, total);
      if next == None { return false; }
      var recSize := DecS(src[offset..offset + 4]);
      if recSize < 0 { return false; }
      next := Advance(offset + 4, recSize, total);
      if next == None { return false; }
      offset := next.value;
    }
    var afterRid := Advance(offset, 8, total);
    if afterRid == None { return false; }
    var afterSize := Advance(afterRid.value, 8, total);
    if afterSize == None { return false; }
    var nameSize := DecLE(src[afterRid.value..afterSize.value]);
    var end := Advance(afterSize.value, nameSize, total);
    ok := end == Some(total);
  }

  // ---------- decoding ----------

  function ValueAt(src: seq<Byte>, offset: nat): (v: seq<Byte>)
    requires offset + 4 <= |src| && 0 <= DecS(src[offset..offset + 4])
    requires offset + 4 + DecS(src[offset..offset + 4]) <= |src|
  {
    src[offset + 4..offset + 4 + DecS(src[offset..offset + 4])]
  }

  lemma OneValueLayout(b: seq<Byte>, v: seq<Byte>, page: int, slot: int, table: seq<Byte>)
    requires HoldsValue(b, 24, v) && HoldsTail(b, 28 + |v|, page, slot, table)
    ensures ValidLayout(b, |b|, 1)
  {
    assert EndOfValues(b, |b|, 28 + |v|, 0) == Some(28 + |v|);
  }

  lemma TwoValueLayout(b: seq<Byte>, v: seq<Byte>, w: seq<Byte>, page: int, slot: int, table: seq<Byte>)
    requires HoldsValue(b, 24, v) && HoldsValue(b, 28 + |v|, w) && HoldsTail(b, 32 + |v| + |w|, page, slot, table)
    ensures ValidLayout(b, |b|, 2)
  {
    var n := 32 + |v| + |w|;
    assert EndOfValues(b, |b|, n, 0) == Some(n);
    assert EndOfValues(b, |b|, 28 + |v|, 1) == Some(n);
  }

  lemma ValueEncoded(b: seq<Byte>, at: nat, v: seq<Byte>)
    requires HoldsValue(b, at, v)
    ensures b[at..at + 4 + |v|] == EncBytes(v)
  {
    SignedEncDec(b[at..at + 4]);
    assert b[at..at + 4 + |v|] == b[at..at + 4] + b[at + 4..at + 4 + |v|];
  }

  lemma TailEncoded(b: seq<Byte>, at: nat, page: int, slot: int, table: seq<Byte>)
    requires HoldsTail(b, at, page, slot, table)
    ensures b[at..] == EncTail(page, slot, table)
  {
    SignedEncDec(b[at..at + 4]);
    SignedEncDec(b[at + 4..at + 8]);
    EncDec(b[at + 8..at + 16]);
    assert b[at..] == b[at..at + 4] + b[at + 4..at + 8] + b[at + 8..at + 16] + b[at + 16..];
  }

  lemma HeaderEncoded(b: seq<Byte>, code: nat)
    requires |b| >= LOG_HEADER_SIZE && DecS(b[0..4]) == code && DecLE(b[8..12]) == |b|
    ensures b[..24] == Header(code, DecS(b[4..8]), |b|, DecS(b[12..20]), DecS(b[20..24]))
  {
    SignedEncDec(b[0..4]);
    SignedEncDec(b[4..8]);
    EncDec(b[8..12]);
    SignedEncDec(b[12..20]);
    SignedEncDec(b[20..24]);
    assert b[..24] == b[0..4] + b[4..8] + b[8..12] + b[12..20] + b[20..24];
  }

  lemma OneValueEncoded(b: seq<Byte>, r: Record)
    requires r.Insert? || r.Delete?
    requires HoldsValue(b, 24, r.value) && HoldsTail(b, 28 + |r.value|, r.page, r.slot, r.table)
    requires DecS(b[0..4]) == TypeCode(r) && DecLE(b[8..12]) == |b|
    requires DecS(b[4..8]) == r.lsn && DecS(b[12..20]) == r.tid && DecS(b[20..24]) == r.prevLsn
    ensures b == Encode(r)
  {
    HeaderEncoded(b, TypeCode(r));
    ValueEncoded(b, 24, r.value);
    TailEncoded(b, 28 + |r.value|, r.page, r.slot, r.table);
    AssembleOne(b, 28 + |r.value|, b[..24], EncBytes(r.value), EncTail(r.page, r.slot, r.table));
  }

  lemma AssembleOne(b: seq<Byte>, n: nat, h: seq<Byte>, v: seq<Byte>, t: seq<Byte>)
    requires 24 <= n <= |b| && b[..24] == h && b[24..n] == v && b[n..] == t
    ensures b == h + (v + t)
  {
  }

  lemma TwoValuesEncoded(b: seq<Byte>, r: Record)
    requires r.Update?
    requires HoldsValue(b, 24, r.before) && HoldsValue(b, 28 + |r.before|, r.after)
    requires HoldsTail(b, 32 + |r.before| + |r.after|, r.page, r.slot, r.table)
    requires DecS(b[0..4]) == TypeCode(r) && DecLE(b[8..12]) == |b|
    requires DecS(b[4..8]) == r.lsn && DecS(b[12..20]) == r.tid && DecS(b[20..24]) == r.prevLsn
    ensures b == Encode(r)
  {
    var m, n := 28 + |r.before|, 32 + |r.before| + |r.after|;
    HeaderEncoded(b, TypeCode(r));
    ValueEncoded(b, 24, r.before);
    ValueEncoded(b, m, r.after);
    TailEncoded(b, n, r.page, r.slot, r.table);
    Assemble(b, m, n, b[..24], EncBytes(r.before), EncBytes(r.after), EncTail(r.page, r.slot, r.table));
  }

  lemma Assemble(b: seq<Byte>, m: nat, n: nat, h: seq<Byte>, v: seq<Byte>, w: seq<Byte>, t: seq<Byte>)
    requires 24 <= m <= n <= |b| && b[..24] == h && b[24..m] == v && b[m..n] == w && b[n..] == t
    ensures b == h + (v + w + t)
  {
    Cut(b, 24, m, n);
  }

  /** InsertLogRecord and DeleteLogRecord. */
  method DecodeOne(src: seq<Byte>, isInsert: bool, lsn: int, tid: int, prevLsn: int) returns (r: Option<Record>)
    requires LOG_HEADER_SIZE <= |src|
    ensures r.Some? <==> ValidLayout(src, |src|, 1)
    ensures r.Some? ==>
      && (if isInsert then r.value.Insert? else r.value.Delete?)
      && r.value.lsn == lsn && r.value.tid == tid && r.value.prevLsn == prevLsn
      && HoldsValue(src, 24, r.value.value)
      && HoldsTail(src, 28 + |r.value.value|, r.value.page, r.value.slot, r.value.table)
  {
    var ok := Validate(src, |src|, false);
    if !ok { return None; }
    assert EndOfValues(src, |src|, 28 + DecS(src[24..28]), 0).Some?;
    var value := ValueAt(src, 24);
    var n := 28 + |value|;
    var page, slot, table := DecS(src[n..n + 4]), DecS(src[n + 4..n + 8]), src[n + 16..];
    r := Some(if isInsert then Insert(lsn, tid, prevLsn, value, page, slot, table)
              else Delete(lsn, tid, prevLsn, value, page, slot, table));
  }

  /** UpdateLogRecord. */
  method DecodeUpdate(src: seq<Byte>, lsn: int, tid: int, prevLsn: int) returns (r: Option<Record>)
    requires LOG_HEADER_SIZE <= |src|
    ensures r.Some? <==> ValidLayout(src, |src|, 2)
    ensures r.Some? ==>
      && r.value.Update? && r.value.lsn == lsn && r.value.tid == tid && r.value.prevLsn == prevLsn
      && HoldsValue(src, 24, r.value.before) && HoldsValue(src, 28 + |r.value.before|, r.value.after)
      && HoldsTail(src, 32 + |r.value.before| + |r.value.after|, r.value.page, r.value.slot, r.value.table)
  {
    var ok := Validate(src, |src|, true);
    if !ok { return None; }
    ghost var m0 := 28 + DecS(src[24..28]);
    assert EndOfValues(src, |src|, m0, 1).Some?;
    assert EndOfValues(src, |src|, m0 + 4 + DecS(src[m0..m0 + 4]), 0).Some?;
    var before := ValueAt(src, 24);
    var m := 28 + |before|;
    var after := ValueAt(src, m);
    var n := m + 4 + |after|;
    r := Some(Update(lsn, tid, prevLsn, before, after, DecS(src[n..n + 4]), DecS(src[n + 4..n + 8]), src[n + 16..]));
  }

  /** What the header of an encoded record says. */
  lemma EncodedHeader(rec: Record)
    requires WellFormed(rec)
    ensures var src := Encode(rec);
            && DecS(src[0..4]) == TypeCode(rec) && DecLE(src[8..12]) == |src|
            && DecS(src[4..8]) == rec.lsn && DecS(src[12..20]) == rec.tid && DecS(src[20..24]) == rec.prevLsn
  {
    HeaderFields(rec, []);
    assert Encode(rec) + [] == Encode(rec);
  }

  lemma EncodedOne(rec: Record, r: Option<Record>)
    requires WellFormed(rec) && (rec.Insert? || rec.Delete?)
    requires r.Some? <==> ValidLayout(Encode(rec), |Encode(rec)|, 1)
    requires r.Some? ==> (r.value.Insert? && rec.Insert?) || (r.value.Delete? && rec.Delete?)
    requires r.Some? ==> r.value.lsn == rec.lsn && r.value.tid == rec.tid && r.value.prevLsn == rec.prevLsn
    requires r.Some? ==> HoldsValue(Encode(rec), 24, r.value.value)
    requires r.Some? ==> HoldsTail(Encode(rec), 28 + |r.value.value|, r.value.page, r.value.slot, r.value.table)
    ensures r == Some(rec)
  {
    OneValueHeld(rec);
    OneValueLayout(Encode(rec), rec.value, rec.page, rec.slot, rec.table);
  }

  lemma EncodedUpdate(rec: Record, r: Option<Record>)
    requires WellFormed(rec) && rec.Update?
    requires r.Some? <==> ValidLayout(Encode(rec), |Encode(rec)|, 2)
    requires r.Some? ==> r.value.Update? && r.value.lsn == rec.lsn && r.value.tid == rec.tid
    requires r.Some? ==> r.value.prevLsn == rec.prevLsn && HoldsValue(Encode(rec), 24, r.value.before)
    requires r.Some? ==> HoldsValue(Encode(rec), 28 + |r.value.before|, r.value.after)
    requires r.Some? ==> HoldsTail(Encode(rec), 32 + |r.value.before| + |r.value.after|, r.value.page,
                                   r.value.slot, r.value.table)
    ensures r == Some(rec)
  {
    TwoValuesHeld(rec);
    TwoValueLayout(Encode(rec), rec.before, rec.after, rec.page, rec.slot, rec.table);
    SameUpdate(Encode(rec), rec, r.value);
  }

  /** The bytes of an update record determine its body. */
  lemma SameUpdate(b: seq<Byte>, x: Record, y: Record)
    requires x.Update? && y.Update? && x.lsn == y.lsn && x.tid == y.tid && x.prevLsn == y.prevLsn
    requires HoldsValue(b, 24, x.before) && HoldsValue(b, 28 + |x.before|, x.after)
    requires HoldsTail(b, 32 + |x.before| + |x.after|, x.page, x.slot, x.table)
    requires HoldsValue(b, 24, y.before) && HoldsValue(b, 28 + |y.before|, y.after)
    requires HoldsTail(b, 32 + |y.before| + |y.after|, y.page, y.slot, y.table)
    ensures x == y
  {
    OneValueHere(b, 24, x.before, y.before);
    OneValueHere(b, 28 + |x.before|, x.after, y.after);
    OneTailHere(b, 32 + |x.before| + |x.after|, x, y);
  }

  /** At one offset stands one value, and one tail. */
  lemma OneValueHere(b: seq<Byte>, at: nat, v: seq<Byte>, w: seq<Byte>)
    requires HoldsValue(b, at, v) && HoldsValue(b, at, w)
    ensures v == w
  {
  }

  lemma OneTailHere(b: seq<Byte>, at: nat, x: Record, y: Record)
    requires !x.Mark? && !y.Mark?
    requires HoldsTail(b, at, x.page, x.slot, x.table) && HoldsTail(b, at, y.page, y.slot, y.table)
    ensures x.page == y.page && x.slot == y.slot && x.table == y.table
  {
  }

  function MarkOf(code: int, lsn: int, tid: int, prevLsn: int): (r: Option<Record>)
  {
    match code
    case 3 => Some(Mark(BeginTxn, lsn, tid, prevLsn))
    case 4 => Some(Mark(CommitTxn, lsn, tid, prevLsn))
    case 5 => Some(Mark(AbortTxn, lsn, tid, prevLsn))
    case 6 => Some(Mark(CheckpointMark, lsn, tid, prevLsn))
    case _ => None
  }

  /** The result of the switch on the record type. */
  ghost predicate Switched(src: seq<Byte>, r: Option<Record>)
    requires |src| >= LOG_HEADER_SIZE
  {
    var code := DecS(src[0..4]);
    && (code == 0 ==> (r.Some? <==> ValidLayout(src, |src|, 2)) && (r.Some? ==> r.value.Update?))
    && (code == 1 || code == 2 ==>
          (r.Some? <==> ValidLayout(src, |src|, 1))
          && (r.Some? ==> if code == 1 then r.value.Insert? else r.value.Delete?))
    && (code < 0 || code > 2 ==> r == MarkOf(code, DecS(src[4..8]), DecS(src[12..20]), DecS(src[20..24])))
    && (r.Some? ==> r.value.lsn == DecS(src[4..8]) && r.value.tid == DecS(src[12..20]))
    && (r.Some? ==> r.value.prevLsn == DecS(src[20..24]))
    && (r.Some? && r.value.Update? ==>
          && HoldsValue(src, 24, r.value.before) && HoldsValue(src, 28 + |r.value.before|, r.value.after)
          && HoldsTail(src, 32 + |r.value.before| + |r.value.after|, r.value.page, r.value.slot, r.value.table))
    && (r.Some? && (r.value.Insert? || r.value.Delete?) ==>
          HoldsValue(src, 24, r.value.value)
          && HoldsTail(src, 28 + |r.value.value|, r.value.page, r.value.slot, r.value.table))
  }

  lemma SwitchComplete(rec: Record, r: Option<Record>)
    requires WellFormed(rec) && Switched(Encode(rec), r)
    ensures r == Some(rec)
  {
    EncodedHeader(rec);
    match rec {
      case Update(_, _, _, _, _, _, _, _) => EncodedUpdate(rec, r);
      case Insert(_, _, _, _, _, _, _) => EncodedOne(rec, r);
      case Delete(_, _, _, _, _, _, _) => EncodedOne(rec, r);
      case Mark(_, _, _, _) =>
    }
  }

  lemma SwitchSound(src: seq<Byte>, r: Option<Record>)
    requires |src| >= LOG_HEADER_SIZE && DecLE(src[8..12]) == |src| && Switched(src, r)
    ensures r.Some? && !r.value.Mark? ==> src == Encode(r.value)
  {
    if r.Some? && r.value.Update? {
      SwitchedUpdate(src, r.value);
    } else if r.Some? && !r.value.Mark? {
      SwitchedOne(src, r.value);
    }
  }

  lemma SwitchedUpdate(src: seq<Byte>, rec: Record)
    requires |src| >= LOG_HEADER_SIZE && DecLE(src[8..12]) == |src| && Switched(src, Some(rec)) && rec.Update?
    ensures src == Encode(rec)
  {
    TwoValuesEncoded(src, rec);
  }

  lemma SwitchedOne(src: seq<Byte>, rec: Record)
    requires |src| >= LOG_HEADER_SIZE && DecLE(src[8..12]) == |src| && Switched(src, Some(rec))
    requires rec.Insert? || rec.Delete?
    ensures src == Encode(rec)
  {
    OneValueEncoded(src, rec);
  }

  /** deserialize_log_record on the bytes that load_logs read, as many as the header announces.
      Decoding inverts encoding, and a change is accepted only as the encoding of what is returned. */
  method Decode(src: seq<Byte>) returns (r: Option<Record>)
    requires |src| >= LOG_HEADER_SIZE && DecLE(src[8..12]) == |src|
    ensures forall rec :: WellFormed(rec) && src == Encode(rec) ==> r == Some(rec)
    ensures r.Some? && !r.value.Mark? ==> src == Encode(r.value)
  {
    r := SwitchOnType(src);
    SwitchSound(src, r);
    forall rec | WellFormed(rec) && src == Encode(rec) ensures r == Some(rec) {
      SwitchComplete(rec, r);
    }
  }

  method SwitchOnType(src: seq<Byte>) returns (r: Option<Record>)
    requires |src| >= LOG_HEADER_SIZE
    ensures Switched(src, r)
  {
    var code := DecS(src[0..4]);
    var lsn, tid, prevLsn := DecS(src[4..8]), DecS(src[12..20]), DecS(src[20..24]);
    if code == 0 {
      r := DecodeUpdate(src, lsn, tid, prevLsn);
    } else if code == 1 || code == 2 {
      r := DecodeOne(src, code == 1, lsn, tid, prevLsn);
    } else {
      r := MarkOf(code, lsn, tid, prevLsn);
    }
  }

  // ---------- loading the log file ----------

  function EncodeAll(rs: seq<Record>): (b: seq<Byte>)
  {
    if rs == [] then [] else Encode(rs[0]) + EncodeAll(rs[1..])
  }

  /** DiskManager::read_log: at most `size` bytes from `offset`. */
  function ReadLog(file: seq<Byte>, size: nat, offset: nat): (b: seq<Byte>)
  {
    if offset > |file| then [] else if |file| - offset <= size then file[offset..] else file[offset..offset + size]
  }

  ghost predicate TornTail(tail: seq<Byte>)
  {
    tail == [] || exists r :: WellFormed(r) && tail < Encode(r)
  }

  /** Bytes below both lengths read the same. */
  lemma ReadAgrees(file: seq<Byte>, m: nat, n: nat, offset: nat, i: nat, j: nat)
    requires offset <= |file| && i <= j <= m && j <= n && offset + j <= |file|
    ensures j <= |ReadLog(file, m, offset)| && j <= |ReadLog(file, n, offset)|
    ensures ReadLog(file, m, offset)[i..j] == ReadLog(file, n, offset)[i..j] == file[offset..][i..j]
  {
    ReadSlice(file, m, offset, i, j);
    ReadSlice(file, n, offset, i, j);
  }

  lemma ReadSlice(file: seq<Byte>, n: nat, offset: nat, i: nat, j: nat)
    requires offset <= |file| && i <= j <= n && offset + j <= |file|
    ensures j <= |ReadLog(file, n, offset)| && ReadLog(file, n, offset)[i..j] == file[offset..][i..j]
  {
    SliceOfSlice(file, offset, |file|, i, j);
    assert file[offset..|file|] == file[offset..];
    if |file| - offset > n {
      SliceOfSlice(file, offset, offset + n, i, j);
    }
  }

  lemma SliceOfSlice(file: seq<Byte>, from: nat, to: nat, i: nat, j: nat)
    requires from <= to <= |file| && i <= j && from + j <= to
    ensures file[from..to][i..j] == file[from + i..from + j]
  {
    var a, b := file[from..to][i..j], file[from + i..from + j];
    assert |a| == |b|;
    forall k | 0 <= k < |a| ensures a[k] == b[k] {
      assert a[k] == file[from..to][i + k];
    }
  }

  lemma ReadRecord(file: seq<Byte>, offset: nat, r: Record, rest: seq<Byte>)
    requires offset <= |file| && WellFormed(r) && file[offset..] == Encode(r) + rest
    ensures |ReadLog(file, LOG_HEADER_SIZE, offset)| == LOG_HEADER_SIZE
    ensures DecLE(ReadLog(file, LOG_HEADER_SIZE, offset)[8..12]) == TotLen(r)
    ensures ReadLog(file, TotLen(r), offset) == Encode(r) && offset + TotLen(r) <= |file|
    ensures file[offset + TotLen(r)..] == rest
  {
    var n := TotLen(r);
    assert |file| - offset == n + |rest|;
    HeaderFields(r, rest);
    ReadSlice(file, 24, offset, 8, 12);
    ReadSlice(file, n, offset, 0, n);
    assert file[offset + n..] == file[offset..][n..];
  }

  lemma ReadTorn(file: seq<Byte>, offset: nat, tail: seq<Byte>)
    requires offset <= |file| && file[offset..] == tail && TornTail(tail)
    ensures var header := ReadLog(file, LOG_HEADER_SIZE, offset);
            |header| == LOG_HEADER_SIZE ==>
              LOG_HEADER_SIZE <= DecLE(header[8..12]) <= LOG_BUFFER_SIZE
              && |ReadLog(file, DecLE(header[8..12]), offset)| < DecLE(header[8..12])
  {
    var header := ReadLog(file, LOG_HEADER_SIZE, offset);
    if |header| == LOG_HEADER_SIZE {
      var n := TornHeader(tail);
      ReadSlice(file, 24, offset, 8, 12);
    }
  }

  /** A torn record that still has its header announces more bytes than are there. */
  lemma TornHeader(tail: seq<Byte>) returns (n: nat)
    requires TornTail(tail) && |tail| >= LOG_HEADER_SIZE
    ensures DecLE(tail[8..12]) == n && |tail| < n <= LOG_BUFFER_SIZE
  {
    var r :| WellFormed(r) && tail < Encode(r);
    EncodedHeader(r);
    n := TotLen(r);
    PrefixSlice(tail, Encode(r), 8, 12);
  }

  lemma PrefixSlice(a: seq<Byte>, b: seq<Byte>, i: nat, j: nat)
    requires a <= b && i <= j <= |a|
    ensures a[i..j] == b[i..j]
  {
  }

  /** The rest of the file, at a record boundary: records k and up, and the torn tail. */
  ghost predicate Remaining(file: seq<Byte>, offset: nat, rs: seq<Record>, k: nat, tail: seq<Byte>)
  {
    offset <= |file| && k <= |rs| && file[offset..] == EncodeAll(rs[k..]) + tail
  }

  lemma RemainingStep(file: seq<Byte>, offset: nat, rs: seq<Record>, k: nat, tail: seq<Byte>)
    requires Remaining(file, offset, rs, k, tail) && (forall r <- rs :: WellFormed(r)) && TornTail(tail)
    ensures k < |rs| ==>
      && |ReadLog(file, LOG_HEADER_SIZE, offset)| == LOG_HEADER_SIZE
      && DecLE(ReadLog(file, LOG_HEADER_SIZE, offset)[8..12]) == TotLen(rs[k])
      && ReadLog(file, TotLen(rs[k]), offset) == Encode(rs[k]) && WellFormed(rs[k])
      && Remaining(file, offset + TotLen(rs[k]), rs, k + 1, tail)
    ensures var header := ReadLog(file, LOG_HEADER_SIZE, offset);
            k == |rs| && |header| == LOG_HEADER_SIZE ==>
              LOG_HEADER_SIZE <= DecLE(header[8..12])
              && |ReadLog(file, DecLE(header[8..12]), offset)| != DecLE(header[8..12])
  {
    if k < |rs| {
      assert rs[k..][0] == rs[k] && rs[k..][1..] == rs[k + 1..];
      Assoc(Encode(rs[k]), EncodeAll(rs[k + 1..]), tail);
      ReadRecord(file, offset, rs[k], EncodeAll(rs[k + 1..]) + tail);
    } else {
      assert EncodeAll(rs[k..]) + tail == tail;
      ReadTorn(file, offset, tail);
    }
  }

  /** One round of load_logs: header, length check, whole record, decode. */
  method ReadNext(file: seq<Byte>, offset: nat, ghost rs: seq<Record>, ghost k: nat, ghost tail: seq<Byte>)
    returns (record: Option<Record>, total: nat)
    requires Remaining(file, offset, rs, k, tail) && (forall r <- rs :: WellFormed(r)) && TornTail(tail)
    ensures record.Some? <==> k < |rs|
    ensures record.Some? ==> rs[..k + 1] == rs[..k] + [record.value]
    ensures record.Some? ==> 0 < total && Remaining(file, offset + total, rs, k + 1, tail)
  {
    RemainingStep(file, offset, rs, k, tail);
    total := 0;
    var header := ReadLog(file, LOG_HEADER_SIZE, offset);
    if |header| < LOG_HEADER_SIZE { return None, total; }
    total := DecLE(header[8..12]);
    if total < LOG_HEADER_SIZE || total > LOG_BUFFER_SIZE { return None, total; }
    var data := ReadLog(file, total, offset);
    if |data| != total { return None, total; }
    ReadAgrees(file, LOG_HEADER_SIZE, total, offset, 8, 12);
    record := Decode(data);
  }

  /** load_logs: complete records followed by a torn one yield exactly the complete records. */
  method LoadLogs(file: seq<Byte>, start: nat, ghost rs: seq<Record>, ghost tail: seq<Byte>) returns (logs: seq<Record>)
    requires start <= |file| && file[start..] == EncodeAll(rs) + tail
    requires (forall r <- rs :: WellFormed(r)) && TornTail(tail)
    ensures logs == rs
  {
    logs := [];
    var offset := start;
    ghost var k := 0;
    assert rs[0..] == rs;
    while true
      invariant Remaining(file, offset, rs, k, tail) && logs == rs[..k]
      decreases |file| - offset
    {
      var record, total := ReadNext(file, offset, rs, k, tail);
      if record == None { return; }
      logs := logs + [record.value];
      offset, k := offset + total, k + 1;
    }
  }
}
