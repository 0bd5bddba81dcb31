/** How tight the key range of an index scan is: which conditions a key in the range is bound to satisfy. */
module RangeExact {
  import opened Common
  import opened Relational
  import opened IndexRange
  import KeyOrder

  /** The first column where two keys may differ decides, if it does differ. */
  lemma DecidedAt(a: KeyOrder.Key, b: KeyOrder.Key, schema: seq<KeyOrder.ColType>, n: nat)
    requires KeyOrder.Fits(a, schema) && KeyOrder.Fits(b, schema) && n < |a|
    requires forall i :: 0 <= i < n ==> a[i] == b[i]
    ensures var c := KeyOrder.CompareCol(a[n], b[n], schema[n]);
            c != 0 || n + 1 == |a| ==> KeyOrder.Compare(a, b, schema) == c
  {
    KeyPrefix(a, b, schema, n);
    if n + 1 == |a| { assert schema[n..][1..] == []; }
  }

  /** The column of a key in the range lies within the bounds that the conditions gave; an open bound excludes its own
      value only where no index column follows. */
  lemma ColumnInside(r: Range, idx: seq<IxCol>, conds: seq<Cond>, j: nat, k: KeyOrder.Key)
    requires Built(r, idx, conds, |idx|, j) && j < |idx| && KeyOrder.Fits(k, SchemaOf(idx)) && InRange(r, idx, k)
    ensures r.hasLower ==>
              var below := KeyOrder.CompareCol(r.lower[j], k[j], idx[j].kind);
              below <= 0 && (r.lowerOpen && j + 1 == |idx| ==> below < 0)
    ensures r.hasUpper ==>
              var above := KeyOrder.CompareCol(k[j], r.upper[j], idx[j].kind);
              above <= 0 && (r.upperOpen && j + 1 == |idx| ==> above < 0)
  {
    var schema := SchemaOf(idx);
    forall i: nat | i < j ensures k[i] == r.lower[i] == r.upper[i] {
      RangeIsTight(r, idx, conds, j, k, i);
    }
    DecidedAt(r.lower, k, schema, j);
    DecidedAt(k, r.upper, schema, j);
  }

  /** The key column holds the value. */
  predicate Holds(k: KeyOrder.Column, v: Value, c: IxCol)
  {
    FitsValue(v, c.kind) && k == Column(v, c.kind)
  }

  /** The converse of RangeCovers at the bounded column: a row whose key is in the range satisfies the conditions that
      gave the bounds, an open one where no index column follows, and its closed form in any case. */
  lemma RangeImplies(r: Range, idx: seq<IxCol>, conds: seq<Cond>, j: nat, row: Row, v: Value)
    requires Built(r, idx, conds, |idx|, j) && j < |idx| && HasKey(row, idx) && InRange(r, idx, KeyVals(row, idx))
    ensures r.hasLower && Holds(r.lower[j], v, idx[j]) ==>
              && Sat(row, Cond(idx[j].col, GE, Val(v)))
              && (r.lowerOpen && j + 1 == |idx| ==> Sat(row, Cond(idx[j].col, GT, Val(v))))
    ensures r.hasUpper && Holds(r.upper[j], v, idx[j]) ==>
              && Sat(row, Cond(idx[j].col, LE, Val(v)))
              && (r.upperOpen && j + 1 == |idx| ==> Sat(row, Cond(idx[j].col, LT, Val(v))))
  {
    var k, c := KeyVals(row, idx), idx[j];
    ColumnInside(r, idx, conds, j, k);
    assert k[j] == Column(row[c.col], c.kind);
    if FitsValue(v, c.kind) {
      ValueOrders(v, row[c.col], c.kind);
      ValueOrders(row[c.col], v, c.kind);
    }
  }

  /** A column that can hold more than one value. */
  predicate Wide(t: KeyOrder.ColType)
  {
    t.TypeString? ==> t.len > 0
  }

  lemma LeastBelowGreatest(t: KeyOrder.ColType)
    requires Wide(t)
    ensures KeyOrder.CompareCol(Least(t), Greatest(t), t) < 0
  {
  }

  /** Keys in the range: the one that is as low as possible up to the bounded column and as high as possible behind it,
      and its mirror image. */
  lemma CornersInRange(r: Range, idx: seq<IxCol>, conds: seq<Cond>, j: nat)
    requires Built(r, idx, conds, |idx|, j) && j + 1 < |idx| && Wide(idx[j + 1].kind)
    requires KeyOrder.CompareCol(r.lower[j], r.upper[j], idx[j].kind) < 0
    ensures var k := r.lower[..j + 1] + r.upper[j + 1..];
            KeyOrder.Fits(k, SchemaOf(idx)) && InRange(r, idx, k)
    ensures var k := r.upper[..j + 1] + r.lower[j + 1..];
            KeyOrder.Fits(k, SchemaOf(idx)) && InRange(r, idx, k)
  {
    var schema := SchemaOf(idx);
    var a, b := r.lower[..j + 1] + r.upper[j + 1..], r.upper[..j + 1] + r.lower[j + 1..];
    LeastBelowGreatest(idx[j + 1].kind);
    DecidedAt(r.lower, a, schema, j + 1);
    DecidedAt(a, r.upper, schema, j);
    DecidedAt(r.lower, b, schema, j);
    DecidedAt(b, r.upper, schema, j + 1);
  }

  /** No key in the range has the value of the lower bound, or of the upper one, in the bounded column. */
  ghost predicate LowerLeftOut(r: Range, idx: seq<IxCol>, j: nat)
    requires KeysFit(r, idx) && |r.lower| == |idx| && j < |idx|
  {
    forall k :: KeyOrder.Fits(k, SchemaOf(idx)) && InRange(r, idx, k) ==> k[j] != r.lower[j]
  }

  ghost predicate UpperLeftOut(r: Range, idx: seq<IxCol>, j: nat)
    requires KeysFit(r, idx) && |r.lower| == |idx| && j < |idx|
  {
    forall k :: KeyOrder.Fits(k, SchemaOf(idx)) && InRange(r, idx, k) ==> k[j] != r.upper[j]
  }

  lemma LastColumnLeftOut(r: Range, idx: seq<IxCol>, conds: seq<Cond>, j: nat)
    requires Built(r, idx, conds, |idx|, j) && j + 1 == |idx|
    ensures (r.lowerOpen ==> LowerLeftOut(r, idx, j)) && (r.upperOpen ==> UpperLeftOut(r, idx, j))
  {
    forall k | KeyOrder.Fits(k, SchemaOf(idx)) && InRange(r, idx, k)
      ensures (r.lowerOpen ==> k[j] != r.lower[j]) && (r.upperOpen ==> k[j] != r.upper[j])
    {
      ColumnInside(r, idx, conds, j, k);
      KeyOrder.DigitOrders(r.lower[j], k[j], idx[j].kind);
      KeyOrder.DigitOrders(k[j], r.upper[j], idx[j].kind);
    }
  }

  lemma InnerColumnMet(r: Range, idx: seq<IxCol>, conds: seq<Cond>, j: nat)
    requires Built(r, idx, conds, |idx|, j) && j + 1 < |idx| && Wide(idx[j + 1].kind)
    requires KeyOrder.CompareCol(r.lower[j], r.upper[j], idx[j].kind) < 0
    ensures !LowerLeftOut(r, idx, j) && !UpperLeftOut(r, idx, j)
  {
    CornersInRange(r, idx, conds, j);
    assert (r.lower[..j + 1] + r.upper[j + 1..])[j] == r.lower[j];
    assert (r.upper[..j + 1] + r.lower[j + 1..])[j] == r.upper[j];
  }

  /** Exactly when an open bound keeps its own value out of the range: when no index column follows. Otherwise the scan
      meets keys that fail the condition and leaves them to the check of each record. */
  lemma OpenBoundExact(r: Range, idx: seq<IxCol>, conds: seq<Cond>, j: nat)
    requires Built(r, idx, conds, |idx|, j) && j < |idx| && (j + 1 < |idx| ==> Wide(idx[j + 1].kind))
    requires KeyOrder.CompareCol(r.lower[j], r.upper[j], idx[j].kind) < 0
    ensures r.lowerOpen ==> (LowerLeftOut(r, idx, j) <==> j + 1 == |idx|)
    ensures r.upperOpen ==> (UpperLeftOut(r, idx, j) <==> j + 1 == |idx|)
  {
    if j + 1 == |idx| { LastColumnLeftOut(r, idx, conds, j); } else { InnerColumnMet(r, idx, conds, j); }
  }
}
