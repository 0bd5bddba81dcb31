/** beginTuple of IndexScanExecutor: the key range it builds from the scan conditions. */
module IndexRange {
  import opened Common
  import opened Relational
  import KeyOrder

  /** A column of an index and its type. */
  datatype IxCol = IxCol(col: Col, kind: KeyOrder.ColType)

  function SchemaOf(idx: seq<IxCol>): (s: seq<KeyOrder.ColType>)
    ensures |s| == |idx| && forall i :: 0 <= i < |idx| ==> s[i] == idx[i].kind
  {
    seq(|idx|, i requires 0 <= i < |idx| => idx[i].kind)
  }

  /** lower_key_, upper_key_ and the four flags */
  datatype Range = Range(lower: KeyOrder.Key, upper: KeyOrder.Key,
                         hasLower: bool, hasUpper: bool, lowerOpen: bool, upperOpen: bool)

  // ---------- values as key columns ----------

  /** The value can be stored in such a column: a string is no longer than the column and contains no NUL. */
  predicate FitsValue(v: Value, t: KeyOrder.ColType)
  {
    match t
    case TypeInt => v.IntVal? && IsInt32(v.n)
    case TypeString(len) => v.StrVal? && |v.bytes| <= len && forall b <- v.bytes :: 0 < b && KeyOrder.IsByte(b)
  }

  function Repeat(b: int, n: nat): (r: seq<int>)
    ensures |r| == n && forall i :: 0 <= i < n ==> r[i] == b
  {
    seq(n, _ => b)
  }

  /** Value::init_raw: a string is padded with zeros to the length of the column. */
  function Column(v: Value, t: KeyOrder.ColType): (c: KeyOrder.Column)
    requires FitsValue(v, t)
    ensures KeyOrder.FitsCol(c, t)
  {
    match t
    case TypeInt => KeyOrder.IntCol(v.n)
    case TypeString(len) => KeyOrder.StringCol(v.bytes + Repeat(0, len - |v.bytes|))
  }

  /** fill_min_key */
  function Least(t: KeyOrder.ColType): (c: KeyOrder.Column)
    ensures KeyOrder.FitsCol(c, t)
  {
    match t
    case TypeInt => KeyOrder.IntCol(INT_MIN)
    case TypeString(len) => KeyOrder.StringCol(Repeat(0, len))
  }

  /** fill_max_key */
  function Greatest(t: KeyOrder.ColType): (c: KeyOrder.Column)
    ensures KeyOrder.FitsCol(c, t)
  {
    match t
    case TypeInt => KeyOrder.IntCol(INT_MAX)
    case TypeString(len) => KeyOrder.StringCol(Repeat(255, len))
  }

  /** memcmp of padded strings is the order of the strings, because no string contains a zero byte. */
  lemma {:induction false} PaddingOrders(a: seq<int>, b: seq<int>, len: nat)
    requires |a| <= len && |b| <= len && (forall x <- a :: 0 < x) && (forall x <- b :: 0 < x)
    ensures KeyOrder.MemCmp(a + Repeat(0, len - |a|), b + Repeat(0, len - |b|)) == CompareStrings(a, b)
  {
    var pa, pb := a + Repeat(0, len - |a|), b + Repeat(0, len - |b|);
    if a == [] && b == [] {
      MemCmpSelf(pa);
    } else if a != [] && b != [] {
      assert pa[1..] == a[1..] + Repeat(0, len - |a|) && pb[1..] == b[1..] + Repeat(0, len - |b|);
      assert (forall x <- a[1..] :: x in a) && (forall x <- b[1..] :: x in b);
      PaddingOrders(a[1..], b[1..], len - 1);
    } else {
      assert pa[0] == (if a == [] then 0 else a[0]) && pb[0] == (if b == [] then 0 else b[0]);
      assert a != [] ==> a[0] in a;
      assert b != [] ==> b[0] in b;
    }
  }

  lemma {:induction false} MemCmpSelf(a: seq<int>)
    ensures KeyOrder.MemCmp(a, a) == 0
  {
    if a != [] { MemCmpSelf(a[1..]); }
  }

  lemma {:induction false} SameString(a: seq<int>, b: seq<int>)
    ensures CompareStrings(a, b) == 0 <==> a == b
  {
    if a != [] && b != [] {
      SameString(a[1..], b[1..]);
      assert a == [a[0]] + a[1..] && b == [b[0]] + b[1..];
    }
  }

  /** The order of key columns is the order of the values in them. */
  lemma ValueOrders(x: Value, y: Value, t: KeyOrder.ColType)
    requires FitsValue(x, t) && FitsValue(y, t)
    ensures Below(x, y) <==> KeyOrder.CompareCol(Column(x, t), Column(y, t), t) < 0
    ensures x == y <==> KeyOrder.CompareCol(Column(x, t), Column(y, t), t) == 0
  {
    if t.TypeString? {
      PaddingOrders(x.bytes, y.bytes, t.len);
      SameString(x.bytes, y.bytes);
    }
  }

  lemma {:induction false} MemCmpLeast(a: seq<int>, b: seq<int>)
    requires |a| == |b| && forall i :: 0 <= i < |a| ==> a[i] <= b[i]
    ensures KeyOrder.MemCmp(a, b) <= 0
  {
    if a != [] { MemCmpLeast(a[1..], b[1..]); }
  }

  lemma FillsBound(c: KeyOrder.Column, t: KeyOrder.ColType)
    requires KeyOrder.FitsCol(c, t)
    ensures KeyOrder.CompareCol(Least(t), c, t) <= 0 && KeyOrder.CompareCol(c, Greatest(t), t) <= 0
  {
    if t.TypeString? {
      forall i | 0 <= i < |c.bytes| ensures 0 <= c.bytes[i] <= 255 { assert KeyOrder.IsByte(c.bytes[i]); }
      MemCmpLeast(Least(t).bytes, c.bytes);
      MemCmpLeast(c.bytes, Greatest(t).bytes);
    }
  }

  // ---------- comparing keys column by column ----------

  lemma {:induction false} KeyPrefix(a: KeyOrder.Key, b: KeyOrder.Key, schema: seq<KeyOrder.ColType>, n: nat)
    requires KeyOrder.Fits(a, schema) && KeyOrder.Fits(b, schema) && n <= |a|
    requires forall i :: 0 <= i < n ==> a[i] == b[i]
    ensures KeyOrder.Compare(a, b, schema) == KeyOrder.Compare(a[n..], b[n..], schema[n..])
  {
    if n > 0 {
      KeyOrder.DigitOrders(a[0], b[0], schema[0]);
      KeyPrefix(a[1..], b[1..], schema[1..], n - 1);
      assert a[1..][n - 1..] == a[n..] && b[1..][n - 1..] == b[n..] && schema[1..][n - 1..] == schema[n..];
    }
  }

  lemma {:induction false} KeyLeast(a: KeyOrder.Key, b: KeyOrder.Key, schema: seq<KeyOrder.ColType>)
    requires KeyOrder.Fits(a, schema) && KeyOrder.Fits(b, schema)
    requires forall i :: 0 <= i < |a| ==> KeyOrder.CompareCol(a[i], b[i], schema[i]) <= 0
    ensures KeyOrder.Compare(a, b, schema) <= 0
  {
    if a != [] { KeyLeast(a[1..], b[1..], schema[1..]); }
  }

  /** Equal up to n, not larger at n, and no larger column later. */
  lemma KeyAt(a: KeyOrder.Key, b: KeyOrder.Key, schema: seq<KeyOrder.ColType>, n: nat)
    requires KeyOrder.Fits(a, schema) && KeyOrder.Fits(b, schema) && n < |a|
    requires forall i :: 0 <= i < n ==> a[i] == b[i]
    requires forall i :: n <= i < |a| ==> KeyOrder.CompareCol(a[i], b[i], schema[i]) <= 0
    ensures KeyOrder.Compare(a, b, schema) <= 0
    ensures KeyOrder.CompareCol(a[n], b[n], schema[n]) < 0 ==> KeyOrder.Compare(a, b, schema) < 0
  {
    KeyPrefix(a, b, schema, n);
    KeyLeast(a[n..], b[n..], schema[n..]);
  }

  // ---------- what the loops build ----------

  predicate OnColumn(c: Cond, col: Col)
  {
    c.rhs.Val? && c.lhs == col
  }

  predicate IsLower(op: Op)
  {
    op == GT || op == GE
  }

  predicate IsUpper(op: Op)
  {
    op == LT || op == LE
  }

  /** found is a condition on the column with such an operator, or there is none. */
  ghost predicate Found(found: Option<Cond>, conds: seq<Cond>, col: Col, ops: set<Op>)
  {
    if found.Some? then found.value in conds && OnColumn(found.value, col) && found.value.op in ops
    else forall c <- conds :: OnColumn(c, col) ==> c.op !in ops
  }

  /** The inner loop: the last equality, lower bound and upper bound on one index column. */
  method ColumnBounds(conds: seq<Cond>, col: Col)
    returns (eq: Option<Cond>, lower: Option<Cond>, upper: Option<Cond>)
    ensures Found(eq, conds, col, {EQ}) && Found(lower, conds, col, {GT, GE}) && Found(upper, conds, col, {LT, LE})
  {
    eq, lower, upper := None, None, None;
    for i := 0 to |conds|
      invariant Found(eq, conds[..i], col, {EQ})
      invariant Found(lower, conds[..i], col, {GT, GE}) && Found(upper, conds[..i], col, {LT, LE})
    {
      var c := conds[i];
      assert conds[..i + 1] == conds[..i] + [c];
      if OnColumn(c, col) {
        if c.op == EQ {
          eq := Some(c);
        } else if IsLower(c.op) {
          lower := Some(c);
        } else if IsUpper(c.op) {
          upper := Some(c);
        }
      }
    }
    assert conds[..|conds|] == conds;
  }

  /** The key column comes from a condition with the operator. */
  ghost predicate From(k: KeyOrder.Column, conds: seq<Cond>, c: IxCol, op: Op)
  {
    exists v :: Cond(c.col, op, Val(v)) in conds && FitsValue(v, c.kind) && k == Column(v, c.kind)
  }

  ghost predicate NoneOf(conds: seq<Cond>, c: IxCol, ops: set<Op>)
  {
    forall x <- conds :: OnColumn(x, c.col) ==> x.op !in ops
  }

  /** The column where the equality prefix ends has the range's lower bound, or none. */
  ghost predicate LowerAt(r: Range, conds: seq<Cond>, c: IxCol, j: nat)
  {
    && j < |r.lower|
    && (if r.lowerOpen then r.hasLower && From(r.lower[j], conds, c, GT)
        else || (r.hasLower && From(r.lower[j], conds, c, GE))
             || (r.lower[j] == Least(c.kind) && (r.hasLower <==> j > 0) && NoneOf(conds, c, {GT, GE})))
  }

  ghost predicate UpperAt(r: Range, conds: seq<Cond>, c: IxCol, j: nat)
  {
    && j < |r.upper|
    && (if r.upperOpen then r.hasUpper && From(r.upper[j], conds, c, LT)
        else || (r.hasUpper && From(r.upper[j], conds, c, LE))
             || (r.upper[j] == Greatest(c.kind) && (r.hasUpper <==> j > 0) && NoneOf(conds, c, {LT, LE})))
  }

  /** The bounds are keys of the first columns of the index. */
  ghost predicate KeysFit(r: Range, idx: seq<IxCol>)
  {
    && |r.lower| == |r.upper| <= |idx|
    && (forall k :: 0 <= k < |r.lower| ==> KeyOrder.FitsCol(r.lower[k], idx[k].kind))
    && (forall k :: 0 <= k < |r.upper| ==> KeyOrder.FitsCol(r.upper[k], idx[k].kind))
  }

  /** After i columns: an equality prefix of j columns, one column with bounds, and nothing more. */
  ghost predicate Built(r: Range, idx: seq<IxCol>, conds: seq<Cond>, i: nat, j: nat)
  {
    && j <= i <= |idx| && |r.lower| == |r.upper| == i && KeysFit(r, idx)
    && (forall k: nat :: k < j ==> r.lower[k] == r.upper[k] && From(r.lower[k], conds, idx[k], EQ))
    && (forall k: nat :: j < k < i ==> r.lower[k] == Least(idx[k].kind) && r.upper[k] == Greatest(idx[k].kind))
    && (if j == i then !r.lowerOpen && !r.upperOpen && (r.hasLower <==> j > 0) && (r.hasUpper <==> j > 0)
        else LowerAt(r, conds, idx[j], j) && UpperAt(r, conds, idx[j], j) && NoneOf(conds, idx[j], {EQ}))
  }

  /** Name analysis: a value compared with an index column can be stored in it. */
  ghost predicate TypedConds(conds: seq<Cond>, idx: seq<IxCol>)
  {
    forall c, x :: c in conds && x in idx && OnColumn(c, x.col) ==> FitsValue(c.rhs.v, x.kind)
  }

  /** The outer loop over the index columns. */
  method BuildRange(idx: seq<IxCol>, conds: seq<Cond>) returns (r: Range)
    requires TypedConds(conds, idx)
    ensures exists j: nat :: Built(r, idx, conds, |idx|, j)
  {
    r := Range([], [], false, false, false, false);
    ghost var j: nat := 0;
    var stopPrefix := false;
    for i := 0 to |idx|
      invariant Built(r, idx, conds, i, j) && (stopPrefix <==> j < i)
    {
      var eq, lower, upper := None, None, None;
      if !stopPrefix {
        eq, lower, upper := ColumnBounds(conds, idx[i].col);
      }
      assert idx[i] in idx;
      if eq.Some? {
        EqualityStep(r, idx, conds, i, eq.value);
        r := WithEquality(r, idx[i].kind, eq.value);
        j := j + 1;
      } else {
        BoundsStep(r, idx, conds, i, j, lower, upper);
        r := WithBounds(r, idx[i].kind, lower, upper);
        stopPrefix := true;
      }
    }
  }

  function WithEquality(r: Range, t: KeyOrder.ColType, eq: Cond): Range
    requires eq.rhs.Val? && FitsValue(eq.rhs.v, t)
  {
    Range(r.lower + [Column(eq.rhs.v, t)], r.upper + [Column(eq.rhs.v, t)], true, true, r.lowerOpen, r.upperOpen)
  }

  predicate FitsBound(bound: Option<Cond>, t: KeyOrder.ColType)
  {
    bound.Some? ==> bound.value.rhs.Val? && FitsValue(bound.value.rhs.v, t)
  }

  function WithBounds(r: Range, t: KeyOrder.ColType, lower: Option<Cond>, upper: Option<Cond>): Range
    requires FitsBound(lower, t) && FitsBound(upper, t)
  {
    Range(r.lower + [if lower.Some? then Column(lower.value.rhs.v, t) else Least(t)],
          r.upper + [if upper.Some? then Column(upper.value.rhs.v, t) else Greatest(t)],
          r.hasLower || lower.Some?, r.hasUpper || upper.Some?,
          if lower.Some? then lower.value.op == GT else r.lowerOpen,
          if upper.Some? then upper.value.op == LT else r.upperOpen)
  }

  lemma EqualityStep(r: Range, idx: seq<IxCol>, conds: seq<Cond>, i: nat, eq: Cond)
    requires Built(r, idx, conds, i, i) && i < |idx|
    requires eq in conds && OnColumn(eq, idx[i].col) && eq.op == EQ && FitsValue(eq.rhs.v, idx[i].kind)
    ensures Built(WithEquality(r, idx[i].kind, eq), idx, conds, i + 1, i + 1)
  {
    assert eq == Cond(idx[i].col, EQ, Val(eq.rhs.v));
    assert From(Column(eq.rhs.v, idx[i].kind), conds, idx[i], EQ);
  }

  lemma BoundsStep(r: Range, idx: seq<IxCol>, conds: seq<Cond>, i: nat, j: nat,
                   lower: Option<Cond>, upper: Option<Cond>)
    requires Built(r, idx, conds, i, j) && i < |idx| && FitsBound(lower, idx[i].kind) && FitsBound(upper, idx[i].kind)
    requires if j == i then && Found(None, conds, idx[i].col, {EQ})
                            && Found(lower, conds, idx[i].col, {GT, GE}) && Found(upper, conds, idx[i].col, {LT, LE})
             else lower == None && upper == None
    ensures Built(WithBounds(r, idx[i].kind, lower, upper), idx, conds, i + 1, j)
  {
    var r' := WithBounds(r, idx[i].kind, lower, upper);
    if j == i {
      assert LowerAt(r', conds, idx[j], j) by {
        if lower.Some? { assert lower.value == Cond(idx[j].col, lower.value.op, Val(lower.value.rhs.v)); }
      }
      assert UpperAt(r', conds, idx[j], j) by {
        if upper.Some? { assert upper.value == Cond(idx[j].col, upper.value.op, Val(upper.value.rhs.v)); }
      }
    } else {
      assert LowerAt(r', conds, idx[j], j) && UpperAt(r', conds, idx[j], j);
    }
  }

  // ---------- the range covers the answer ----------

  predicate HasKey(row: Row, idx: seq<IxCol>)
  {
    forall c <- idx :: c.col in row && FitsValue(row[c.col], c.kind)
  }

  /** The index key of a row. */
  function KeyVals(row: Row, idx: seq<IxCol>): (k: KeyOrder.Key)
    requires HasKey(row, idx)
    ensures |k| == |idx| && KeyOrder.Fits(k, SchemaOf(idx))
    ensures forall i :: 0 <= i < |idx| ==>
              idx[i].col in row && FitsValue(row[idx[i].col], idx[i].kind)
              && k[i] == Column(row[idx[i].col], idx[i].kind)
  {
    if idx == [] then [] else [Column(row[idx[0].col], idx[0].kind)] + KeyVals(row, idx[1..])
  }

  ghost predicate InRange(r: Range, idx: seq<IxCol>, k: KeyOrder.Key)
    requires KeysFit(r, idx) && |r.lower| == |idx| && KeyOrder.Fits(k, SchemaOf(idx))
  {
    var below, above := KeyOrder.Compare(r.lower, k, SchemaOf(idx)), KeyOrder.Compare(k, r.upper, SchemaOf(idx));
    && (r.hasLower ==> if r.lowerOpen then below < 0 else below <= 0)
    && (r.hasUpper ==> if r.upperOpen then above < 0 else above <= 0)
  }

  /** Every row that satisfies the conditions has its key in the range. */
  lemma RangeCovers(r: Range, idx: seq<IxCol>, conds: seq<Cond>, j: nat, row: Row)
    requires Built(r, idx, conds, |idx|, j) && HasKey(row, idx) && AllSat(row, conds)
    ensures InRange(r, idx, KeyVals(row, idx))
  {
    var k, schema := KeyVals(row, idx), SchemaOf(idx);
    forall i: nat | i < j ensures k[i] == r.lower[i] == r.upper[i] {
      EqualitySat(r.lower[i], conds, idx[i], row);
    }
    forall i | 0 <= i < |idx|
      ensures KeyOrder.CompareCol(r.lower[i], k[i], schema[i]) <= 0
      ensures KeyOrder.CompareCol(k[i], r.upper[i], schema[i]) <= 0
      ensures i == j && r.lowerOpen ==> KeyOrder.CompareCol(r.lower[i], k[i], schema[i]) < 0
      ensures i == j && r.upperOpen ==> KeyOrder.CompareCol(k[i], r.upper[i], schema[i]) < 0
    {
      ColumnCovered(r, idx, conds, j, row, i);
    }
    if j < |idx| {
      KeyAt(r.lower, k, schema, j);
      KeyAt(k, r.upper, schema, j);
    } else {
      KeyLeast(r.lower, k, schema);
      KeyLeast(k, r.upper, schema);
    }
  }

  lemma EqualitySat(k: KeyOrder.Column, conds: seq<Cond>, c: IxCol, row: Row)
    requires From(k, conds, c, EQ) && AllSat(row, conds) && c.col in row && FitsValue(row[c.col], c.kind)
    ensures k == Column(row[c.col], c.kind)
  {
    var v :| Cond(c.col, EQ, Val(v)) in conds && FitsValue(v, c.kind) && k == Column(v, c.kind);
    assert Sat(row, Cond(c.col, EQ, Val(v)));
  }

  lemma ColumnCovered(r: Range, idx: seq<IxCol>, conds: seq<Cond>, j: nat, row: Row, i: nat)
    requires Built(r, idx, conds, |idx|, j) && HasKey(row, idx) && AllSat(row, conds) && i < |idx|
    ensures var k, t := KeyVals(row, idx)[i], idx[i].kind;
            && KeyOrder.CompareCol(r.lower[i], k, t) <= 0 && KeyOrder.CompareCol(k, r.upper[i], t) <= 0
            && (i == j && r.lowerOpen ==> KeyOrder.CompareCol(r.lower[i], k, t) < 0)
            && (i == j && r.upperOpen ==> KeyOrder.CompareCol(k, r.upper[i], t) < 0)
  {
    var k, c := KeyVals(row, idx)[i], idx[i];
    FillsBound(k, c.kind);
    if i < j {
      EqualitySat(r.lower[i], conds, c, row);
      KeyOrder.DigitOrders(k, k, c.kind);
    } else if i == j {
      LowerSat(r, conds, c, j, row);
      UpperSat(r, conds, c, j, row);
    }
  }

  lemma BoundSat(k: KeyOrder.Column, conds: seq<Cond>, c: IxCol, op: Op, row: Row)
    requires From(k, conds, c, op) && AllSat(row, conds) && c.col in row && FitsValue(row[c.col], c.kind)
    ensures KeyOrder.FitsCol(k, c.kind)
    ensures var x := Column(row[c.col], c.kind);
            && (op == GT ==> KeyOrder.CompareCol(k, x, c.kind) < 0)
            && (op == GE ==> KeyOrder.CompareCol(k, x, c.kind) <= 0)
            && (op == LT ==> KeyOrder.CompareCol(x, k, c.kind) < 0)
            && (op == LE ==> KeyOrder.CompareCol(x, k, c.kind) <= 0)
  {
    var v :| Cond(c.col, op, Val(v)) in conds && FitsValue(v, c.kind) && k == Column(v, c.kind);
    assert Sat(row, Cond(c.col, op, Val(v)));
    ValueOrders(v, row[c.col], c.kind);
    ValueOrders(row[c.col], v, c.kind);
  }

  lemma LowerSat(r: Range, conds: seq<Cond>, c: IxCol, j: nat, row: Row)
    requires LowerAt(r, conds, c, j) && KeyOrder.FitsCol(r.lower[j], c.kind)
    requires AllSat(row, conds) && c.col in row && FitsValue(row[c.col], c.kind)
    ensures var below := KeyOrder.CompareCol(r.lower[j], Column(row[c.col], c.kind), c.kind);
            if r.lowerOpen then below < 0 else below <= 0
  {
    FillsBound(Column(row[c.col], c.kind), c.kind);
    if r.lowerOpen {
      BoundSat(r.lower[j], conds, c, GT, row);
    } else if From(r.lower[j], conds, c, GE) {
      BoundSat(r.lower[j], conds, c, GE, row);
    }
  }

  lemma UpperSat(r: Range, conds: seq<Cond>, c: IxCol, j: nat, row: Row)
    requires UpperAt(r, conds, c, j) && KeyOrder.FitsCol(r.upper[j], c.kind)
    requires AllSat(row, conds) && c.col in row && FitsValue(row[c.col], c.kind)
    ensures var above := KeyOrder.CompareCol(Column(row[c.col], c.kind), r.upper[j], c.kind);
            if r.upperOpen then above < 0 else above <= 0
  {
    FillsBound(Column(row[c.col], c.kind), c.kind);
    if r.upperOpen {
      BoundSat(r.upper[j], conds, c, LT, row);
    } else if From(r.upper[j], conds, c, LE) {
      BoundSat(r.upper[j], conds, c, LE, row);
    }
  }

  /** The range is no wider than its equality prefix: a key in it agrees with every leading equality. */
  lemma {:induction false} RangeIsTight(r: Range, idx: seq<IxCol>, conds: seq<Cond>, j: nat, k: KeyOrder.Key, i: nat)
    requires Built(r, idx, conds, |idx|, j) && KeyOrder.Fits(k, SchemaOf(idx)) && InRange(r, idx, k) && i < j
    ensures k[i] == r.lower[i] && From(k[i], conds, idx[i], EQ)
    decreases i
  {
    var schema := SchemaOf(idx);
    forall n: nat | n < i ensures k[n] == r.lower[n] == r.upper[n] {
      RangeIsTight(r, idx, conds, j, k, n);
    }
    KeyPrefix(r.lower, k, schema, i);
    KeyPrefix(k, r.upper, schema, i);
    KeyOrder.DigitOrders(r.lower[i], k[i], schema[i]);
    KeyOrder.DigitOrders(k[i], r.lower[i], schema[i]);
  }

  // ---------- as codes ----------

  function CodeOf(k: KeyOrder.Key, idx: seq<IxCol>): (c: nat)
    requires KeyOrder.Fits(k, SchemaOf(idx))
    ensures c < KeyOrder.KeySpace(SchemaOf(idx))
  {
    KeyOrder.Code(k, SchemaOf(idx))
  }

  /** The code under which the index keeps a row. */
  function RowCode(row: Row, idx: seq<IxCol>): (c: nat)
    requires HasKey(row, idx)
  {
    CodeOf(KeyVals(row, idx), idx)
  }

  /** The first code of the range. */
  function Lo(r: Range, idx: seq<IxCol>): int
    requires KeyOrder.Fits(r.lower, SchemaOf(idx))
  {
    if r.hasLower then CodeOf(r.lower, idx) + (if r.lowerOpen then 1 else 0) else 0
  }

  /** The first code past the range. */
  function Hi(r: Range, idx: seq<IxCol>): int
    requires KeyOrder.Fits(r.upper, SchemaOf(idx))
  {
    if r.hasUpper then CodeOf(r.upper, idx) + (if r.upperOpen then 0 else 1) else KeyOrder.KeySpace(SchemaOf(idx))
  }

  lemma RangeAsCodes(r: Range, idx: seq<IxCol>, k: KeyOrder.Key)
    requires KeysFit(r, idx) && |r.lower| == |idx| && KeyOrder.Fits(k, SchemaOf(idx))
    ensures InRange(r, idx, k) <==> Lo(r, idx) <= CodeOf(k, idx) < Hi(r, idx)
  {
    KeyOrder.CodeOrders(r.lower, k, SchemaOf(idx));
    KeyOrder.CodeOrders(k, r.upper, SchemaOf(idx));
  }
}
