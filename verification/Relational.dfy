/** The meaning of a query: filter the cross product of its sources. Rows are finite maps from columns to
    values; a source's rows come in some order, and results keep left-major order. */
module Relational {
  datatype Col = Col(tab: string, name: string)
  datatype Op = EQ | NE | LT | GT | LE | GE
  /** A value of an integer column, or of a string column without its padding. */
  datatype Value = IntVal(n: int) | StrVal(bytes: seq<int>)
  datatype Operand = Val(v: Value) | ColRef(c: Col)
  datatype Cond = Cond(lhs: Col, op: Op, rhs: Operand)

  type Row = map<Col, Value>
  /** the order in which each source yields its rows */
  type Access = map<string, seq<Row>>

  /** Byte by byte, and a proper prefix comes first, as std::string compares. */
  function CompareStrings(a: seq<int>, b: seq<int>): (r: int)
  {
    if a == [] then (if b == [] then 0 else -1)
    else if b == [] then 1
    else if a[0] < b[0] then -1
    else if a[0] > b[0] then 1
    else CompareStrings(a[1..], b[1..])
  }

  /** The value order; name analysis has checked that both sides have the same type. */
  predicate Below(x: Value, y: Value)
  {
    match x
    case IntVal(n) => y.IntVal? && n < y.n
    case StrVal(s) => y.StrVal? && CompareStrings(s, y.bytes) < 0
  }

  predicate Compare(op: Op, x: Value, y: Value)
  {
    match op
    case EQ => x == y
    case NE => x != y
    case LT => Below(x, y)
    case GT => Below(y, x)
    case LE => Below(x, y) || x == y
    case GE => Below(y, x) || x == y
  }

  /** One condition of eval_conds; an unknown column makes it false. */
  predicate Sat(row: Row, c: Cond)
  {
    && c.lhs in row
    && match c.rhs
       case Val(v) => Compare(c.op, row[c.lhs], v)
       case ColRef(d) => d in row && Compare(c.op, row[c.lhs], row[d])
  }

  predicate AllSat(row: Row, conds: seq<Cond>)
  {
    forall c <- conds :: Sat(row, c)
  }

  function FilterRows(rows: seq<Row>, conds: seq<Cond>): (r: seq<Row>)
  {
    if rows == [] then []
    else (if AllSat(rows[0], conds) then [rows[0]] else []) + FilterRows(rows[1..], conds)
  }

  /** The joined record: a column is looked up from the left, so that of two sources with one name the first is seen. */
  function Merge(l: Row, r: Row): Row
  {
    r + l
  }

  function PairRows(l: Row, rs: seq<Row>): (r: seq<Row>)
    ensures |r| == |rs| && forall i :: 0 <= i < |rs| ==> r[i] == Merge(l, rs[i])
  {
    if rs == [] then [] else [Merge(l, rs[0])] + PairRows(l, rs[1..])
  }

  function CrossRows(ls: seq<Row>, rs: seq<Row>): (r: seq<Row>)
  {
    if ls == [] then [] else PairRows(ls[0], rs) + CrossRows(ls[1..], rs)
  }

  function RowsOf(acc: Access, tab: string): seq<Row>
  {
    if tab in acc then acc[tab] else []
  }

  /** The cross product of all sources, in order. */
  function CrossAll(tables: seq<string>, acc: Access): seq<Row>
    requires tables != []
  {
    if |tables| == 1 then RowsOf(acc, tables[0])
    else CrossRows(CrossAll(tables[..|tables| - 1], acc), RowsOf(acc, tables[|tables| - 1]))
  }

  /** A source's rows have only that source's columns, and all of them the same ones. */
  ghost predicate OwnColumns(acc: Access)
  {
    && (forall t, row, c :: t in acc && row in acc[t] && c in row ==> c.tab == t)
    && (forall t <- acc :: Uniform(acc[t]))
  }

  ghost predicate Uniform(rows: seq<Row>)
  {
    forall row, row' :: row in rows && row' in rows ==> row.Keys == row'.Keys
  }

  ghost predicate Within(row: Row, tabs: set<string>)
  {
    forall c :: c in row ==> c.tab in tabs
  }

  ghost predicate Mentions(c: Cond, tabs: set<string>)
  {
    c.lhs.tab in tabs && (c.rhs.ColRef? ==> c.rhs.c.tab in tabs)
  }

  // ---------- filtering ----------

  lemma {:induction false} FilterConcat(xs: seq<Row>, ys: seq<Row>, conds: seq<Cond>)
    ensures FilterRows(xs + ys, conds) == FilterRows(xs, conds) + FilterRows(ys, conds)
  {
    if xs == [] {
      assert xs + ys == ys;
    } else {
      assert (xs + ys)[0] == xs[0] && (xs + ys)[1..] == xs[1..] + ys;
      FilterConcat(xs[1..], ys, conds);
      var head := if AllSat(xs[0], conds) then [xs[0]] else [];
      assert head + (FilterRows(xs[1..], conds) + FilterRows(ys, conds)) ==
        FilterRows(xs, conds) + FilterRows(ys, conds);
    }
  }

  lemma {:induction false} FilterSame(rows: seq<Row>, cs: seq<Cond>, ds: seq<Cond>)
    requires forall row <- rows :: AllSat(row, cs) == AllSat(row, ds)
    ensures FilterRows(rows, cs) == FilterRows(rows, ds)
  {
    if rows != [] {
      assert rows[0] in rows;
      FilterSame(rows[1..], cs, ds);
    }
  }

  lemma {:induction false} FilterNone(rows: seq<Row>, conds: seq<Cond>)
    requires forall row <- rows :: !AllSat(row, conds)
    ensures FilterRows(rows, conds) == []
  {
    if rows != [] {
      assert rows[0] in rows;
      FilterNone(rows[1..], conds);
    }
  }

  lemma {:induction false} FilterMembers(rows: seq<Row>, conds: seq<Cond>)
    ensures forall row :: row in FilterRows(rows, conds) <==> row in rows && AllSat(row, conds)
  {
    if rows != [] {
      FilterMembers(rows[1..], conds);
      assert rows == [rows[0]] + rows[1..];
    }
  }

  lemma AllSatConcat(row: Row, cs: seq<Cond>, ds: seq<Cond>)
    ensures AllSat(row, cs + ds) <==> AllSat(row, cs) && AllSat(row, ds)
  {
    if AllSat(row, cs + ds) {
      forall c <- cs ensures Sat(row, c) { assert c in cs + ds; }
      forall c <- ds ensures Sat(row, c) { assert c in cs + ds; }
    }
  }

  lemma {:induction false} FilterTwice(rows: seq<Row>, cs: seq<Cond>, ds: seq<Cond>)
    ensures FilterRows(FilterRows(rows, cs), ds) == FilterRows(rows, cs + ds)
  {
    if rows != [] {
      FilterTwice(rows[1..], cs, ds);
      AllSatConcat(rows[0], cs, ds);
      var head := if AllSat(rows[0], cs) then [rows[0]] else [];
      FilterConcat(head, FilterRows(rows[1..], cs), ds);
    }
  }

  // ---------- which rows a condition can see ----------

  lemma SeesLeft(l: Row, r: Row, conds: seq<Cond>, tabs: set<string>, t: string)
    requires (forall c <- conds :: Mentions(c, tabs)) && Within(r, {t}) && t !in tabs
    ensures AllSat(Merge(l, r), conds) == AllSat(l, conds)
  {
    forall c <- conds ensures Sat(Merge(l, r), c) == Sat(l, c)
    {
      assert c.lhs !in r;
      assert c.rhs.ColRef? ==> c.rhs.c !in r;
    }
  }

  lemma SeesRight(l: Row, r: Row, conds: seq<Cond>, tabs: set<string>, t: string)
    requires (forall c <- conds :: Mentions(c, {t})) && Within(l, tabs) && t !in tabs
    ensures AllSat(Merge(l, r), conds) == AllSat(r, conds)
  {
    forall c <- conds ensures Sat(Merge(l, r), c) == Sat(r, c)
    {
      assert c.lhs !in l;
      assert c.rhs.ColRef? ==> c.rhs.c !in l;
    }
  }

  // ---------- cross products ----------

  lemma {:induction false} CrossMembers(ls: seq<Row>, rs: seq<Row>, row: Row)
    requires row in CrossRows(ls, rs)
    ensures exists l, r :: l in ls && r in rs && row == Merge(l, r)
  {
    if row in PairRows(ls[0], rs) {
      var i :| 0 <= i < |rs| && PairRows(ls[0], rs)[i] == row;
      assert ls[0] in ls && rs[i] in rs && row == Merge(ls[0], rs[i]);
    } else {
      CrossMembers(ls[1..], rs, row);
      var l, r :| l in ls[1..] && r in rs && row == Merge(l, r);
      assert l in ls;
    }
  }

  lemma {:induction false} CrossHasPair(ls: seq<Row>, rs: seq<Row>, l: Row, r: Row)
    requires l in ls && r in rs
    ensures Merge(l, r) in CrossRows(ls, rs)
  {
    if l == ls[0] {
      var i :| 0 <= i < |rs| && rs[i] == r;
      assert PairRows(l, rs)[i] == Merge(l, r);
    } else {
      CrossHasPair(ls[1..], rs, l, r);
    }
  }

  lemma {:induction false} CrossWithin(tables: seq<string>, acc: Access)
    requires tables != [] && OwnColumns(acc)
    ensures forall row <- CrossAll(tables, acc) :: Within(row, set t <- tables)
  {
    var n := |tables|;
    if n > 1 {
      CrossWithin(tables[..n - 1], acc);
      forall row <- CrossAll(tables, acc) ensures Within(row, set t <- tables)
      {
        CrossMembers(CrossAll(tables[..n - 1], acc), RowsOf(acc, tables[n - 1]), row);
      }
    }
  }

  lemma MergeKeys(l: Row, r: Row)
    ensures Merge(l, r).Keys == l.Keys + r.Keys
    ensures r.Keys <= l.Keys ==> Merge(l, r) == l
  {
  }

  lemma SameColumns(acc: Access, tab: string, x: Row, r: Row)
    requires OwnColumns(acc) && x in RowsOf(acc, tab) && r in RowsOf(acc, tab)
    ensures x.Keys == r.Keys
  {
  }

  lemma NotLast(tables: seq<string>, tab: string)
    requires tab in tables && tab != tables[|tables| - 1]
    ensures tab in tables[..|tables| - 1]
  {
    var i :| 0 <= i < |tables| && tables[i] == tab;
    assert tables[..|tables| - 1][i] == tab;
  }

  /** A row of the product has every column of each of its sources. */
  lemma {:induction false} CrossCovers(tables: seq<string>, acc: Access, tab: string, row: Row, r: Row)
    requires tables != [] && tab in tables && OwnColumns(acc) && row in CrossAll(tables, acc) && r in RowsOf(acc, tab)
    ensures r.Keys <= row.Keys
  {
    var n := |tables|;
    if n > 1 {
      var prefix, last := tables[..n - 1], tables[n - 1];
      CrossMembers(CrossAll(prefix, acc), RowsOf(acc, last), row);
      var l, x :| l in CrossAll(prefix, acc) && x in RowsOf(acc, last) && row == Merge(l, x);
      MergeKeys(l, x);
      if tab == last {
        SameColumns(acc, tab, x, r);
      } else {
        NotLast(tables, tab);
        CrossCovers(prefix, acc, tab, l, r);
      }
    } else {
      SameColumns(acc, tab, row, r);
    }
  }

  // ---------- products in which a source may occur again ----------

  /** The conditions that a later occurrence of the source is filtered by. */
  function OwnOf(own: map<string, seq<Cond>>, tab: string): seq<Cond>
  {
    if tab in own then own[tab] else []
  }

  function LaterRows(acc: Access, own: map<string, seq<Cond>>, tab: string): seq<Row>
  {
    FilterRows(RowsOf(acc, tab), OwnOf(own, tab))
  }

  /** The product in which each later occurrence of a source contributes only rows that satisfy its own conditions. */
  function CrossThinned(tables: seq<string>, own: map<string, seq<Cond>>, acc: Access): seq<Row>
    requires tables != []
  {
    var prefix, last := tables[..|tables| - 1], tables[|tables| - 1];
    if prefix == [] then RowsOf(acc, last)
    else
      CrossRows(CrossThinned(prefix, own, acc), if last in prefix then LaterRows(acc, own, last) else RowsOf(acc, last))
  }

  lemma FilterAll(rows: seq<Row>)
    ensures FilterRows(rows, []) == rows
  {
    if rows != [] { FilterAll(rows[1..]); }
  }

  /** Without such conditions it is the cross product. */
  lemma {:induction false} ThinnedBare(tables: seq<string>, acc: Access)
    requires tables != []
    ensures CrossThinned(tables, map[], acc) == CrossAll(tables, acc)
  {
    FilterAll(RowsOf(acc, tables[|tables| - 1]));
    if |tables| > 1 { ThinnedBare(tables[..|tables| - 1], acc); }
  }

  lemma {:induction false} ThinnedWithin(tables: seq<string>, own: map<string, seq<Cond>>, acc: Access, row: Row)
    requires tables != [] && row in CrossThinned(tables, own, acc)
    ensures row in CrossAll(tables, acc)
  {
    var prefix, last := tables[..|tables| - 1], tables[|tables| - 1];
    if prefix != [] {
      var rs := if last in prefix then LaterRows(acc, own, last) else RowsOf(acc, last);
      CrossMembers(CrossThinned(prefix, own, acc), rs, row);
      var l, r :| l in CrossThinned(prefix, own, acc) && r in rs && row == Merge(l, r);
      ThinnedWithin(prefix, own, acc, l);
      FilterMembers(RowsOf(acc, last), OwnOf(own, last));
      CrossHasPair(CrossAll(prefix, acc), RowsOf(acc, last), l, r);
    }
  }

  // ---------- the order of the sources' rows does not matter ----------

  lemma BagOfMiddle<T>(a: seq<T>, m: seq<T>, b: seq<T>)
    ensures multiset(a + (m + b)) == multiset(m) + multiset(a + b)
  {
  }

  lemma BagSplit<T>(ys: seq<T>, i: nat)
    requires i < |ys|
    ensures multiset(ys) == multiset([ys[i]]) + multiset(ys[..i] + ys[i + 1..])
    ensures ys == ys[..i] + ([ys[i]] + ys[i + 1..])
  {
    assert ys == ys[..i] + ([ys[i]] + ys[i + 1..]);
    BagOfMiddle(ys[..i], [ys[i]], ys[i + 1..]);
  }

  lemma BagEmpty<T>(ys: seq<T>)
    requires multiset(ys) == multiset{}
    ensures ys == []
  {
    assert |multiset(ys)| == |ys|;
  }

  /** Where the first element of xs stands in a permutation of xs. */
  lemma FindFirst<T>(xs: seq<T>, ys: seq<T>) returns (i: nat)
    requires xs != [] && multiset(xs) == multiset(ys)
    ensures i < |ys| && ys[i] == xs[0] && multiset(xs[1..]) == multiset(ys[..i] + ys[i + 1..])
    ensures ys == ys[..i] + ([ys[i]] + ys[i + 1..])
  {
    i := IndexIn(xs[0], xs, ys);
    BagSplit(ys, i);
    BagSplit(xs, 0);
    assert xs[..0] + xs[1..] == xs[1..];
    BagCancel([xs[0]], xs[1..], ys[..i] + ys[i + 1..]);
  }

  lemma IndexIn<T>(x: T, xs: seq<T>, ys: seq<T>) returns (i: nat)
    requires x in xs && multiset(xs) == multiset(ys)
    ensures i < |ys| && ys[i] == x
  {
    assert x in multiset(xs);
    assert x in ys;
    i :| 0 <= i < |ys| && ys[i] == x;
  }

  lemma BagCancel<T>(m: seq<T>, a: seq<T>, b: seq<T>)
    requires multiset(m) + multiset(a) == multiset(m) + multiset(b)
    ensures multiset(a) == multiset(b)
  {
    assert multiset(a) == multiset(m) + multiset(a) - multiset(m);
    assert multiset(b) == multiset(m) + multiset(b) - multiset(m);
  }

  lemma {:induction false} FilterPermutes(xs: seq<Row>, ys: seq<Row>, conds: seq<Cond>)
    requires multiset(xs) == multiset(ys)
    ensures multiset(FilterRows(xs, conds)) == multiset(FilterRows(ys, conds))
  {
    if xs == [] {
      BagEmpty(ys);
    } else {
      var i := FindFirst(xs, ys);
      var front, back := ys[..i], ys[i + 1..];
      FilterPermutes(xs[1..], front + back, conds);
      FilterMiddle(front, ys[i], back, conds);
      var head := if AllSat(xs[0], conds) then [xs[0]] else [];
      assert FilterRows(xs, conds) == head + FilterRows(xs[1..], conds);
    }
  }

  lemma FilterMiddle(front: seq<Row>, row: Row, back: seq<Row>, conds: seq<Cond>)
    ensures multiset(FilterRows(front + ([row] + back), conds)) ==
              multiset(if AllSat(row, conds) then [row] else []) + multiset(FilterRows(front + back, conds))
  {
    FilterConcat(front, back, conds);
    FilterConcat(front, [row] + back, conds);
    assert ([row] + back)[1..] == back;
    BagOfMiddle(FilterRows(front, conds), if AllSat(row, conds) then [row] else [], FilterRows(back, conds));
  }

  lemma ConsConcat(xs: seq<Row>, ys: seq<Row>)
    requires xs != []
    ensures (xs + ys)[0] == xs[0] && (xs + ys)[1..] == xs[1..] + ys
  {
  }

  lemma Regroup(a: seq<Row>, b: seq<Row>, c: seq<Row>)
    ensures a + (b + c) == (a + b) + c
  {
  }

  lemma {:induction false} PairConcat(l: Row, xs: seq<Row>, ys: seq<Row>)
    ensures PairRows(l, xs + ys) == PairRows(l, xs) + PairRows(l, ys)
  {
    if xs == [] {
      assert xs + ys == ys;
    } else {
      ConsConcat(xs, ys);
      PairConcat(l, xs[1..], ys);
      Regroup([Merge(l, xs[0])], PairRows(l, xs[1..]), PairRows(l, ys));
    }
  }

  lemma PairMiddle(l: Row, front: seq<Row>, row: Row, back: seq<Row>)
    ensures multiset(PairRows(l, front + ([row] + back))) ==
              multiset([Merge(l, row)]) + multiset(PairRows(l, front + back))
  {
    PairConcat(l, front, back);
    PairConcat(l, front, [row] + back);
    assert ([row] + back)[1..] == back;
    BagOfMiddle(PairRows(l, front), [Merge(l, row)], PairRows(l, back));
  }

  lemma {:induction false} PairPermutes(l: Row, xs: seq<Row>, ys: seq<Row>)
    requires multiset(xs) == multiset(ys)
    ensures multiset(PairRows(l, xs)) == multiset(PairRows(l, ys))
  {
    if xs == [] {
      BagEmpty(ys);
    } else {
      var i := FindFirst(xs, ys);
      PairPermutes(l, xs[1..], ys[..i] + ys[i + 1..]);
      PairMiddle(l, ys[..i], ys[i], ys[i + 1..]);
      assert PairRows(l, xs) == [Merge(l, xs[0])] + PairRows(l, xs[1..]);
    }
  }

  lemma {:induction false} CrossConcat(xs: seq<Row>, ys: seq<Row>, rs: seq<Row>)
    ensures CrossRows(xs + ys, rs) == CrossRows(xs, rs) + CrossRows(ys, rs)
  {
    if xs == [] {
      assert xs + ys == ys;
    } else {
      assert (xs + ys)[1..] == xs[1..] + ys;
      CrossConcat(xs[1..], ys, rs);
    }
  }

  lemma CrossMiddle(front: seq<Row>, row: Row, back: seq<Row>, rs: seq<Row>)
    ensures multiset(CrossRows(front + ([row] + back), rs)) ==
              multiset(PairRows(row, rs)) + multiset(CrossRows(front + back, rs))
  {
    CrossConcat(front, back, rs);
    CrossConcat(front, [row] + back, rs);
    assert ([row] + back)[1..] == back;
    BagOfMiddle(CrossRows(front, rs), PairRows(row, rs), CrossRows(back, rs));
  }

  lemma {:induction false} CrossPermutes(xs: seq<Row>, ys: seq<Row>, rs: seq<Row>, ss: seq<Row>)
    requires multiset(xs) == multiset(ys) && multiset(rs) == multiset(ss)
    ensures multiset(CrossRows(xs, rs)) == multiset(CrossRows(ys, ss))
  {
    if xs == [] {
      BagEmpty(ys);
    } else {
      var i := FindFirst(xs, ys);
      CrossPermutes(xs[1..], ys[..i] + ys[i + 1..], rs, ss);
      PairPermutes(xs[0], rs, ss);
      CrossMiddle(ys[..i], ys[i], ys[i + 1..], ss);
      assert CrossRows(xs, rs) == PairRows(xs[0], rs) + CrossRows(xs[1..], rs);
    }
  }

  /** Each source yields the same rows, possibly in another order. */
  ghost predicate Reordered(acc: Access, acc': Access)
  {
    forall t :: multiset(RowsOf(acc, t)) == multiset(RowsOf(acc', t))
  }

  lemma {:induction false} CrossAllPermutes(tables: seq<string>, acc: Access, acc': Access)
    requires tables != [] && Reordered(acc, acc')
    ensures multiset(CrossAll(tables, acc)) == multiset(CrossAll(tables, acc'))
  {
    var n := |tables|;
    if n > 1 {
      CrossAllPermutes(tables[..n - 1], acc, acc');
      CrossPermutes(CrossAll(tables[..n - 1], acc), CrossAll(tables[..n - 1], acc'),
                    RowsOf(acc, tables[n - 1]), RowsOf(acc', tables[n - 1]));
    }
  }

  /** The query's meaning as a bag of rows does not depend on scan order. */
  lemma MeaningPermutes(tables: seq<string>, acc: Access, acc': Access, conds: seq<Cond>)
    requires tables != [] && Reordered(acc, acc')
    ensures multiset(FilterRows(CrossAll(tables, acc), conds)) == multiset(FilterRows(CrossAll(tables, acc'), conds))
  {
    CrossAllPermutes(tables, acc, acc');
    FilterPermutes(CrossAll(tables, acc), CrossAll(tables, acc'), conds);
  }
}
