/** The set clauses of an update: how the executor builds the new record, and what it is, column by column. */
module SetClauses {
  import opened Common
  import opened Relational

  datatype SetRhs = Constant(v: Value) | Expr(col: Col, minus: bool, n: int)
  datatype SetClause = SetClause(col: Col, rhs: SetRhs)

  /** 32-bit wrap-around of lhs + rhs and lhs - rhs */
  function Wrap32(x: int): (r: int)
    ensures IsInt32(r) && (IsInt32(x) ==> r == x)
  {
    (x + 0x8000_0000) % 0x1_0000_0000 - 0x8000_0000
  }

  /** One set clause; right-hand columns are read from the old record, unknown columns are skipped. */
  function ApplySet(before: Row, row: Row, s: SetClause): Row
  {
    if s.col !in row then row
    else match s.rhs
         case Constant(v) => row[s.col := v]
         case Expr(col, minus, n) =>
           if col !in before || !before[col].IntVal? then row
           else row[s.col := IntVal(Wrap32(if minus then before[col].n - n else before[col].n + n))]
  }

  function ApplySets(before: Row, sets: seq<SetClause>): Row
  {
    if sets == [] then before else ApplySet(before, ApplySets(before, sets[..|sets| - 1]), sets[|sets| - 1])
  }

  // ---------- column by column ----------

  /** The clause sets the column to something: its right-hand side is a constant or a number column of the record. */
  predicate Sets(before: Row, s: SetClause, col: Col)
  {
    s.col == col && (s.rhs.Expr? ==> s.rhs.col in before && before[s.rhs.col].IntVal?)
  }

  /** The two numbers are equal as 32-bit integers. */
  predicate Same32(x: int, y: int)
  {
    (x - y) % 0x1_0000_0000 == 0
  }

  lemma Same32Unique(x: int, y: int, z: int)
    requires IsInt32(x) && IsInt32(y) && Same32(x, z) && Same32(y, z)
    ensures x == y
  {
    assert (x - z) - (y - z) == x - y;
  }

  /** The value is what the clause gives: taking the amount off again, or adding it again, leads back to the old value
      of the right-hand column. */
  predicate Gives(before: Row, s: SetClause, v: Value)
    requires Sets(before, s, s.col)
  {
    match s.rhs
    case Constant(c) => v == c
    case Expr(col, minus, n) => v.IntVal? && IsInt32(v.n) && Same32(if minus then v.n + n else v.n - n, before[col].n)
  }

  lemma GivesUnique(before: Row, s: SetClause, v: Value, w: Value)
    requires Sets(before, s, s.col) && Gives(before, s, v) && Gives(before, s, w)
    ensures v == w
  {
    if s.rhs.Expr? {
      var z := before[s.rhs.col].n + if s.rhs.minus then -s.rhs.n else s.rhs.n;
      Same32Unique(v.n, w.n, z);
    }
  }

  lemma ClauseGives(before: Row, s: SetClause, row: Row)
    requires Sets(before, s, s.col) && s.col in row
    ensures s.col in ApplySet(before, row, s) && Gives(before, s, ApplySet(before, row, s)[s.col])
  {
  }

  ghost predicate NeverSet(before: Row, sets: seq<SetClause>, col: Col)
  {
    forall s <- sets :: !Sets(before, s, col)
  }

  /** Clause i is the last one that sets the column. */
  ghost predicate LastSet(before: Row, sets: seq<SetClause>, col: Col, i: nat)
  {
    i < |sets| && Sets(before, sets[i], col) && NeverSet(before, sets[i + 1..], col)
  }

  /** The column has its old value if no clause sets it, and else that of the last clause that does. */
  ghost predicate ColumnUpdated(before: Row, sets: seq<SetClause>, col: Col, v: Value)
    requires col in before
  {
    && (NeverSet(before, sets, col) ==> v == before[col])
    && (forall i: nat :: LastSet(before, sets, col, i) ==> Gives(before, sets[i], v))
  }

  ghost predicate IsUpdated(before: Row, sets: seq<SetClause>, after: Row)
  {
    after.Keys == before.Keys && forall col <- before :: ColumnUpdated(before, sets, col, after[col])
  }

  lemma {:induction false} SomeLastSet(before: Row, sets: seq<SetClause>, col: Col) returns (i: nat)
    requires !NeverSet(before, sets, col)
    ensures LastSet(before, sets, col, i)
  {
    var n := |sets| - 1;
    assert sets == sets[..n] + [sets[n]];
    if Sets(before, sets[n], col) {
      i := n;
    } else {
      i := SomeLastSet(before, sets[..n], col);
      assert sets[i + 1..] == sets[..n][i + 1..] + [sets[n]];
    }
  }

  /** The columns determine the record. */
  lemma UpdatedUnique(before: Row, sets: seq<SetClause>, a: Row, b: Row)
    requires IsUpdated(before, sets, a) && IsUpdated(before, sets, b)
    ensures a == b
  {
    forall col | col in before ensures a[col] == b[col] {
      if !NeverSet(before, sets, col) {
        var i := SomeLastSet(before, sets, col);
        GivesUnique(before, sets[i], a[col], b[col]);
      }
    }
  }

  lemma OneMoreColumn(before: Row, sets: seq<SetClause>, s: SetClause, row: Row, col: Col)
    requires row.Keys == before.Keys && col in before && ColumnUpdated(before, sets, col, row[col])
    ensures col in ApplySet(before, row, s) && ColumnUpdated(before, sets + [s], col, ApplySet(before, row, s)[col])
  {
    var more, v := sets + [s], ApplySet(before, row, s)[col];
    if Sets(before, s, col) {
      ClauseGives(before, s, row);
      assert s in more;
      forall i: nat | i < |sets| ensures !LastSet(before, more, col, i) {
        assert more[i + 1..] == sets[i + 1..] + [s];
        assert s in more[i + 1..];
      }
    } else {
      assert v == row[col];
      forall i: nat | LastSet(before, more, col, i) ensures LastSet(before, sets, col, i) && more[i] == sets[i] {
        assert i < |sets| && more[i + 1..] == sets[i + 1..] + [s];
      }
      if NeverSet(before, more, col) { assert forall c <- sets :: c in more; }
    }
  }

  lemma OneMoreClause(before: Row, sets: seq<SetClause>, s: SetClause, row: Row)
    requires IsUpdated(before, sets, row)
    ensures IsUpdated(before, sets + [s], ApplySet(before, row, s))
  {
    forall col | col in before ensures ColumnUpdated(before, sets + [s], col, ApplySet(before, row, s)[col]) {
      OneMoreColumn(before, sets, s, row, col);
    }
  }

  lemma NoClauses(before: Row)
    ensures IsUpdated(before, [], before)
  {
  }

  /** The new record, clause by clause. */
  method BuildRecord(before: Row, sets: seq<SetClause>) returns (after: Row)
    ensures IsUpdated(before, sets, after) && after == ApplySets(before, sets)
  {
    after := before;
    NoClauses(before);
    for i := 0 to |sets|
      invariant IsUpdated(before, sets[..i], after) && after == ApplySets(before, sets[..i])
    {
      OneMoreClause(before, sets[..i], sets[i], after);
      assert sets[..i + 1] == sets[..i] + [sets[i]] && sets[..i + 1][..i] == sets[..i];
      after := ApplySet(before, after, sets[i]);
    }
    assert sets[..|sets|] == sets;
  }

  /** Every column of the new record has the value of the last clause that sets it, computed from the old record, or its
      old value. */
  lemma {:induction false} ApplySetsExact(before: Row, sets: seq<SetClause>)
    ensures IsUpdated(before, sets, ApplySets(before, sets))
  {
    if sets == [] {
      NoClauses(before);
    } else {
      var n := |sets| - 1;
      ApplySetsExact(before, sets[..n]);
      OneMoreClause(before, sets[..n], sets[n], ApplySets(before, sets[..n]));
      assert sets[..n] + [sets[n]] == sets;
    }
  }

  /** Without overflow the sum or difference is stored. */
  lemma StoredExactly(before: Row, s: SetClause, v: Value)
    requires Sets(before, s, s.col) && s.rhs.Expr? && Gives(before, s, v)
    ensures !s.rhs.minus && IsInt32(before[s.rhs.col].n + s.rhs.n) ==> v.n == before[s.rhs.col].n + s.rhs.n
    ensures s.rhs.minus && IsInt32(before[s.rhs.col].n - s.rhs.n) ==> v.n == before[s.rhs.col].n - s.rhs.n
  {
  }

  /** Right-hand columns are read from the old record: two columns can be exchanged. */
  lemma SetsSwap(before: Row, x: Col, y: Col)
    requires x != y && x in before && y in before && before[x].IntVal? && before[y].IntVal?
    requires IsInt32(before[x].n) && IsInt32(before[y].n)
    ensures ApplySets(before, [SetClause(x, Expr(y, false, 0)), SetClause(y, Expr(x, true, 0))]) ==
              before[x := before[y]][y := before[x]]
  {
    var s, t := SetClause(x, Expr(y, false, 0)), SetClause(y, Expr(x, true, 0));
    assert [s, t][..1] == [s] && [s][..0] == [];
    assert ApplySets(before, [s]) == ApplySet(before, before, s);
  }
}
