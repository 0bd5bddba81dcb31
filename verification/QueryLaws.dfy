/** The laws of conditions: how the six operators of eval_conds relate to each other, and what that means for
    queries. */
module QueryLaws {
  import opened Relational

  /** Name analysis allows only comparisons within one type. */
  predicate SameType(x: Value, y: Value)
  {
    x.IntVal? <==> y.IntVal?
  }

  // ---------- the order of strings ----------

  /** a comes before b: up to some point they agree, and there a ends or has the smaller byte. */
  ghost predicate StringBefore(a: seq<int>, b: seq<int>)
  {
    exists i: nat :: DiffersAt(a, b, i) && (|a| == i || a[i] < b[i])
  }

  ghost predicate DiffersAt(a: seq<int>, b: seq<int>, i: nat)
  {
    i <= |a| && i < |b| && a[..i] == b[..i]
  }

  lemma {:induction false} StringsOrdered(a: seq<int>, b: seq<int>)
    ensures CompareStrings(a, b) < 0 <==> StringBefore(a, b)
    ensures CompareStrings(a, b) == 0 <==> a == b
    ensures CompareStrings(a, b) > 0 <==> CompareStrings(b, a) < 0
  {
    if a == [] {
      if b != [] { assert DiffersAt(a, b, 0); }
    } else if b != [] {
      assert a == [a[0]] + a[1..] && b == [b[0]] + b[1..];
      if a[0] < b[0] {
        assert DiffersAt(a, b, 0);
      } else if a[0] == b[0] {
        StringsOrdered(a[1..], b[1..]);
        TailBefore(a, b);
      } else {
        forall i: nat | 0 < i <= |a| && i < |b| ensures !DiffersAt(a, b, i) { assert a[..i][0] != b[..i][0]; }
      }
    }
  }

  lemma TailBefore(a: seq<int>, b: seq<int>)
    requires a != [] && b != [] && a[0] == b[0]
    ensures StringBefore(a, b) <==> StringBefore(a[1..], b[1..])
  {
    if StringBefore(a[1..], b[1..]) {
      var i: nat :| DiffersAt(a[1..], b[1..], i) && (|a[1..]| == i || a[1..][i] < b[1..][i]);
      assert a[..i + 1] == [a[0]] + a[1..][..i] && b[..i + 1] == [b[0]] + b[1..][..i];
      assert DiffersAt(a, b, i + 1);
    }
    if StringBefore(a, b) {
      var i: nat :| DiffersAt(a, b, i) && (|a| == i || a[i] < b[i]);
      assert i > 0 && a[1..][..i - 1] == a[..i][1..] && b[1..][..i - 1] == b[..i][1..];
      assert DiffersAt(a[1..], b[1..], i - 1);
    }
  }

  // ---------- the operators ----------

  /** Of two values of one type exactly one of less, equal and greater holds; the other three operators say that one of
      these does not. */
  lemma OperatorLaws(x: Value, y: Value)
    requires SameType(x, y)
    ensures Compare(NE, x, y) <==> !Compare(EQ, x, y)
    ensures Compare(LE, x, y) <==> !Compare(GT, x, y)
    ensures Compare(GE, x, y) <==> !Compare(LT, x, y)
    ensures Compare(LT, x, y) || Compare(EQ, x, y) || Compare(GT, x, y)
    ensures !(Compare(LT, x, y) && Compare(EQ, x, y)) && !(Compare(LT, x, y) && Compare(GT, x, y))
    ensures !(Compare(EQ, x, y) && Compare(GT, x, y))
  {
    if x.StrVal? {
      StringsOrdered(x.bytes, y.bytes);
      StringsOrdered(y.bytes, x.bytes);
    }
  }

  function Mirror(op: Op): Op
  {
    match op
    case LT => GT
    case GT => LT
    case LE => GE
    case GE => LE
    case _ => op
  }

  function Negation(op: Op): Op
  {
    match op
    case EQ => NE
    case NE => EQ
    case LT => GE
    case GE => LT
    case GT => LE
    case LE => GT
  }

  lemma OperatorMirror(op: Op, x: Value, y: Value)
    ensures Compare(op, x, y) <==> Compare(Mirror(op), y, x)
  {
  }

  /** Numbers compare as numbers and strings as strings; less means less. */
  lemma LessMeansLess(x: Value, y: Value)
    requires SameType(x, y)
    ensures x.IntVal? ==> (Compare(LT, x, y) <==> x.n < y.n)
    ensures x.StrVal? ==> (Compare(LT, x, y) <==> StringBefore(x.bytes, y.bytes))
    ensures Compare(EQ, x, y) <==> x == y
  {
    if x.StrVal? { StringsOrdered(x.bytes, y.bytes); }
  }

  // ---------- conditions ----------

  /** The row has the columns of the condition, with values of one type. */
  predicate Typed(row: Row, c: Cond)
  {
    c.lhs in row &&
    match c.rhs
    case Val(v) => SameType(row[c.lhs], v)
    case ColRef(d) => d in row && SameType(row[c.lhs], row[d])
  }

  function Negated(c: Cond): Cond
  {
    c.(op := Negation(c.op))
  }

  /** A column on the right stands for its value in the row; a column the row does not have satisfies nothing. */
  lemma ColumnStandsForValue(row: Row, lhs: Col, op: Op, d: Col)
    ensures Sat(row, Cond(lhs, op, ColRef(d))) <==> d in row && Sat(row, Cond(lhs, op, Val(row[d])))
    ensures Sat(row, Cond(lhs, op, ColRef(d))) <==> Sat(row, Cond(d, Mirror(op), ColRef(lhs)))
  {
    if d in row && lhs in row { OperatorMirror(op, row[lhs], row[d]); }
  }

  lemma NegatedSat(row: Row, c: Cond)
    requires Typed(row, c)
    ensures Sat(row, Negated(c)) <==> !Sat(row, c)
  {
    OperatorLaws(row[c.lhs], match c.rhs case Val(v) => v case ColRef(d) => row[d]);
  }

  // ---------- queries ----------

  /** A condition and its negation split the rows of a query: each row is in one of the two answers, as often as it was
      there, and in the other not at all. */
  lemma {:induction false} NegationSplits(rows: seq<Row>, conds: seq<Cond>, c: Cond)
    requires forall row <- rows :: Typed(row, c)
    ensures multiset(FilterRows(rows, conds + [c])) + multiset(FilterRows(rows, conds + [Negated(c)])) ==
              multiset(FilterRows(rows, conds))
    ensures forall row :: row in FilterRows(rows, conds + [c]) ==> row !in FilterRows(rows, conds + [Negated(c)])
  {
    if rows != [] {
      NegationSplits(rows[1..], conds, c);
      OneRowSplits(rows[0], conds, c);
      forall row ensures row in FilterRows(rows, conds + [c]) ==> AllSat(row, conds + [c]) {
        FilteredSat(rows, conds + [c], row);
      }
      forall row
        ensures row in FilterRows(rows, conds + [Negated(c)]) ==> AllSat(row, conds + [Negated(c)]) && row in rows
      {
        FilteredSat(rows, conds + [Negated(c)], row);
      }
      forall row | row in rows ensures !(AllSat(row, conds + [c]) && AllSat(row, conds + [Negated(c)])) {
        OneRowSplits(row, conds, c);
      }
    }
  }

  lemma OneRowSplits(row: Row, conds: seq<Cond>, c: Cond)
    requires Typed(row, c)
    ensures AllSat(row, conds + [c]) <==> AllSat(row, conds) && Sat(row, c)
    ensures AllSat(row, conds + [Negated(c)]) <==> AllSat(row, conds) && !Sat(row, c)
  {
    NegatedSat(row, c);
    Appended(row, conds, c);
    Appended(row, conds, Negated(c));
  }

  lemma Appended(row: Row, conds: seq<Cond>, c: Cond)
    ensures AllSat(row, conds + [c]) <==> AllSat(row, conds) && Sat(row, c)
  {
    assert c in conds + [c];
    assert forall d <- conds :: d in conds + [c];
  }

  lemma {:induction false} FilteredSat(rows: seq<Row>, conds: seq<Cond>, row: Row)
    ensures row in FilterRows(rows, conds) <==> row in rows && AllSat(row, conds)
  {
    if rows != [] {
      FilteredSat(rows[1..], conds, row);
      assert rows == [rows[0]] + rows[1..];
    }
  }
}
