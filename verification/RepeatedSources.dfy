/** Queries in which a source occurs more than once. Aliases are for display only: the source is one name several times,
    and a column means its first occurrence, so that a later occurrence does nothing but repeat rows. */
module RepeatedSources {
  import opened Common
  import opened Relational
  import opened Plans
  import opened Planner

  /** The sources without their later occurrences. */
  function Firsts(tables: seq<string>): (r: seq<string>)
    ensures tables != [] ==> r != []
  {
    if tables == [] then []
    else
      var prefix, last := tables[..|tables| - 1], tables[|tables| - 1];
      if last in prefix then Firsts(prefix) else Firsts(prefix) + [last]
  }

  /** How often later occurrences repeat a row: the product of their numbers of rows. */
  function Repeats(tables: seq<string>, own: map<string, seq<Cond>>, acc: Access): (n: nat)
  {
    if tables == [] then 1
    else
      var prefix, last := tables[..|tables| - 1], tables[|tables| - 1];
      Repeats(prefix, own, acc) * if last in prefix then |LaterRows(acc, own, last)| else 1
  }

  function Copies(rows: seq<Row>, n: nat): (r: seq<Row>)
    ensures |r| == n * |rows|
  {
    if n == 0 then [] else rows + Copies(rows, n - 1)
  }

  // ---------- copies ----------

  lemma {:induction false} CopiesConcat(rows: seq<Row>, m: nat, n: nat)
    ensures Copies(rows, m) + Copies(rows, n) == Copies(rows, m + n)
  {
    if m > 0 {
      CopiesConcat(rows, m - 1, n);
      assert rows + (Copies(rows, m - 1) + Copies(rows, n)) == Copies(rows, m) + Copies(rows, n);
    }
  }

  lemma {:induction false} CopiesTwice(rows: seq<Row>, m: nat, n: nat)
    ensures Copies(Copies(rows, m), n) == Copies(rows, m * n)
  {
    if n > 0 {
      CopiesTwice(rows, m, n - 1);
      CopiesConcat(rows, m, m * (n - 1));
      assert m + m * (n - 1) == m * n;
    }
  }

  lemma {:induction false} CopiesSplit(a: seq<Row>, b: seq<Row>, n: nat)
    ensures multiset(Copies(a + b, n)) == multiset(Copies(a, n)) + multiset(Copies(b, n))
  {
    if n > 0 { CopiesSplit(a, b, n - 1); }
  }

  lemma {:induction false} CopiesPermute(a: seq<Row>, b: seq<Row>, n: nat)
    requires multiset(a) == multiset(b)
    ensures multiset(Copies(a, n)) == multiset(Copies(b, n))
  {
    if n > 0 { CopiesPermute(a, b, n - 1); }
  }

  lemma {:induction false} FilterCopies(rows: seq<Row>, conds: seq<Cond>, n: nat)
    ensures FilterRows(Copies(rows, n), conds) == Copies(FilterRows(rows, conds), n)
  {
    if n > 0 {
      FilterConcat(rows, Copies(rows, n - 1), conds);
      FilterCopies(rows, conds, n - 1);
    }
  }

  lemma {:induction false} CrossCopies(ls: seq<Row>, rs: seq<Row>, n: nat)
    ensures CrossRows(Copies(ls, n), rs) == Copies(CrossRows(ls, rs), n)
  {
    if n > 0 {
      CrossConcat(ls, Copies(ls, n - 1), rs);
      CrossCopies(ls, rs, n - 1);
    }
  }

  lemma {:induction false} PairCopies(l: Row, rs: seq<Row>)
    requires forall r <- rs :: r.Keys <= l.Keys
    ensures PairRows(l, rs) == Copies([l], |rs|)
  {
    if rs != [] {
      assert rs[0] in rs;
      MergeKeys(l, rs[0]);
      PairCopies(l, rs[1..]);
    }
  }

  /** Rows that bring no new column only repeat the others. */
  lemma {:induction false} CrossRepeats(ls: seq<Row>, rs: seq<Row>)
    requires HaveColumns(ls, rs)
    ensures multiset(CrossRows(ls, rs)) == multiset(Copies(ls, |rs|))
  {
    if ls == [] {
      NoCopies(|rs|);
    } else {
      assert ls[0] in ls;
      PairCopies(ls[0], rs);
      CrossRepeats(ls[1..], rs);
      CopiesSplit([ls[0]], ls[1..], |rs|);
      assert ls == [ls[0]] + ls[1..];
    }
  }

  lemma {:induction false} NoCopies(n: nat)
    ensures Copies([], n) == []
  {
    if n > 0 { NoCopies(n - 1); }
  }

  // ---------- the product as copies ----------

  /** The product of any sources is, as a bag, the product of their first occurrences repeated. */
  lemma {:induction false} ThinnedIsCopies(tables: seq<string>, own: map<string, seq<Cond>>, acc: Access)
    requires tables != [] && OwnColumns(acc)
    ensures multiset(CrossThinned(tables, own, acc)) ==
              multiset(Copies(CrossAll(Firsts(tables), acc), Repeats(tables, own, acc)))
  {
    var prefix, last := tables[..|tables| - 1], tables[|tables| - 1];
    if prefix == [] {
      OnlySource(tables, own, acc);
    } else {
      ThinnedIsCopies(prefix, own, acc);
      var thinned, firsts := CrossThinned(prefix, own, acc), CrossAll(Firsts(prefix), acc);
      var n := Repeats(prefix, own, acc);
      if last in prefix {
        LaterCovered(acc, prefix, last, own);
        AgainIsCopies(thinned, firsts, n, LaterRows(acc, own, last));
      } else {
        FreshIsCopies(thinned, firsts, n, RowsOf(acc, last));
        CrossAllSnoc(Firsts(prefix), last, acc);
      }
    }
  }

  lemma AgainIsCopies(thinned: seq<Row>, firsts: seq<Row>, n: nat, rs: seq<Row>)
    requires multiset(thinned) == multiset(Copies(firsts, n)) && HaveColumns(thinned, rs)
    ensures multiset(CrossRows(thinned, rs)) == multiset(Copies(firsts, n * |rs|))
  {
    CrossRepeats(thinned, rs);
    CopiesPermute(thinned, Copies(firsts, n), |rs|);
    CopiesTwice(firsts, n, |rs|);
  }

  lemma FreshIsCopies(thinned: seq<Row>, firsts: seq<Row>, n: nat, rs: seq<Row>)
    requires multiset(thinned) == multiset(Copies(firsts, n))
    ensures multiset(CrossRows(thinned, rs)) == multiset(Copies(CrossRows(firsts, rs), n))
  {
    CrossPermutes(thinned, Copies(firsts, n), rs, rs);
    CrossCopies(firsts, rs, n);
  }

  lemma CrossAllSnoc(tables: seq<string>, last: string, acc: Access)
    requires tables != []
    ensures CrossAll(tables + [last], acc) == CrossRows(CrossAll(tables, acc), RowsOf(acc, last))
  {
    assert (tables + [last])[..|tables|] == tables;
  }

  lemma OnlySource(tables: seq<string>, own: map<string, seq<Cond>>, acc: Access)
    requires |tables| == 1
    ensures CrossThinned(tables, own, acc) == Copies(CrossAll(Firsts(tables), acc), Repeats(tables, own, acc))
  {
    assert tables[..0] == [] && Firsts(tables) == [tables[0]] && Repeats(tables, own, acc) == 1;
    var rows := RowsOf(acc, tables[0]);
    assert Copies(rows, 1) == rows + Copies(rows, 0) == rows;
  }

  /** What a query with repeated sources means: the query over the first occurrences, each of its rows once for every
      choice of rows from the later occurrences. Conditions between two occurrences compare each row with itself. */
  lemma SelfJoinRepeats(tables: seq<string>, acc: Access, conds: seq<Cond>)
    requires tables != [] && OwnColumns(acc)
    ensures multiset(FilterRows(CrossAll(tables, acc), conds)) ==
              multiset(Copies(FilterRows(CrossAll(Firsts(tables), acc), conds), Repeats(tables, map[], acc)))
  {
    ThinnedBare(tables, acc);
    FilteredIsCopies(tables, map[], acc, conds);
  }

  lemma FilteredIsCopies(tables: seq<string>, own: map<string, seq<Cond>>, acc: Access, conds: seq<Cond>)
    requires tables != [] && OwnColumns(acc)
    ensures multiset(FilterRows(CrossThinned(tables, own, acc), conds)) ==
              multiset(Copies(FilterRows(CrossAll(Firsts(tables), acc), conds), Repeats(tables, own, acc)))
  {
    var firsts, n := CrossAll(Firsts(tables), acc), Repeats(tables, own, acc);
    ThinnedIsCopies(tables, own, acc);
    FilterPermutes(CrossThinned(tables, own, acc), Copies(firsts, n), conds);
    FilterCopies(firsts, conds, n);
  }

  // ---------- when thinning loses nothing ----------

  /** Every row of each repeated source satisfies that source's own conditions. */
  ghost predicate AllKept(tables: seq<string>, own: map<string, seq<Cond>>, acc: Access)
  {
    forall i {:trigger tables[i]} :: 0 <= i < |tables| && tables[i] in tables[..i] ==>
      forall row <- RowsOf(acc, tables[i]) :: AllSat(row, OwnOf(own, tables[i]))
  }

  lemma {:induction false} FilterCount(rows: seq<Row>, conds: seq<Cond>)
    ensures |FilterRows(rows, conds)| <= |rows|
    ensures |FilterRows(rows, conds)| == |rows| <==> forall row <- rows :: AllSat(row, conds)
    ensures (forall row <- rows :: AllSat(row, conds)) ==> FilterRows(rows, conds) == rows
  {
    if rows != [] {
      FilterCount(rows[1..], conds);
      assert rows == [rows[0]] + rows[1..];
      assert forall row :: row in rows <==> row == rows[0] || row in rows[1..];
    }
  }

  lemma AllKeptSnoc(tables: seq<string>, own: map<string, seq<Cond>>, acc: Access)
    requires tables != []
    ensures var prefix, last := tables[..|tables| - 1], tables[|tables| - 1];
            AllKept(tables, own, acc) <==>
              && AllKept(prefix, own, acc)
              && (last in prefix ==> forall row <- RowsOf(acc, last) :: AllSat(row, OwnOf(own, last)))
  {
    var n := |tables| - 1;
    var prefix := tables[..n];
    forall i | 0 <= i < n ensures prefix[i] == tables[i] && prefix[..i] == tables[..i] {}
    if AllKept(tables, own, acc) {
      forall i | 0 <= i < n && prefix[i] in prefix[..i]
        ensures forall row <- RowsOf(acc, prefix[i]) :: AllSat(row, OwnOf(own, prefix[i]))
      {
        assert tables[i] in tables[..i];
      }
    }
  }

  lemma Scale(a: nat, b: nat, y: nat)
    requires a <= b
    ensures a * y <= b * y && (a < b && 0 < y ==> a * y < b * y)
  {
    Product(b - a, y);
    assert b * y == a * y + (b - a) * y;
    if a < b { Product(b - a - 1, y); assert (b - a) * y == y + (b - a - 1) * y; }
  }

  lemma ProductsEqual(a: nat, b: nat, x: nat, y: nat)
    requires a <= b && x <= y
    ensures a * x <= b * y
    ensures 0 < b * y ==> (a * x == b * y <==> a == b && x == y)
  {
    Scale(a, b, y);
    Scale(x, y, a);
    assert x * a == a * x && y * a == a * y;
    if 0 < b * y && a == b { Positive(b, y); }
    if 0 < b * y && a < b { Positive(b, y); }
  }

  lemma Positive(b: nat, y: nat)
    requires 0 < b * y
    ensures 0 < b && 0 < y
  {
  }

  lemma RepeatsSnoc(tables: seq<string>, own: map<string, seq<Cond>>, acc: Access)
    requires tables != []
    ensures var prefix, last := tables[..|tables| - 1], tables[|tables| - 1];
            Repeats(tables, own, acc) ==
              Repeats(prefix, own, acc) * if last in prefix then |LaterRows(acc, own, last)| else 1
  {
  }

  lemma {:induction false} RepeatsExact(tables: seq<string>, own: map<string, seq<Cond>>, acc: Access)
    ensures Repeats(tables, own, acc) <= Repeats(tables, map[], acc)
    ensures 0 < Repeats(tables, map[], acc) ==>
              (Repeats(tables, own, acc) == Repeats(tables, map[], acc) <==> AllKept(tables, own, acc))
  {
    if tables != [] {
      var prefix, last := tables[..|tables| - 1], tables[|tables| - 1];
      RepeatsExact(prefix, own, acc);
      AllKeptSnoc(tables, own, acc);
      RepeatsSnoc(tables, own, acc);
      RepeatsSnoc(tables, map[], acc);
      FilterCount(RowsOf(acc, last), OwnOf(own, last));
      FilterAll(RowsOf(acc, last));
      var x, y := |LaterRows(acc, own, last)|, |LaterRows(acc, map[], last)|;
      var a, b := Repeats(prefix, own, acc), Repeats(prefix, map[], acc);
      ProductsEqual(a, b, x, y);
      if last in prefix && 0 < b * y { Positive(b, y); }
    }
  }

  lemma {:induction false} KeptIsAll(tables: seq<string>, own: map<string, seq<Cond>>, acc: Access)
    requires tables != [] && AllKept(tables, own, acc)
    ensures CrossThinned(tables, own, acc) == CrossAll(tables, acc)
  {
    var prefix, last := tables[..|tables| - 1], tables[|tables| - 1];
    AllKeptSnoc(tables, own, acc);
    if prefix != [] {
      KeptIsAll(prefix, own, acc);
      FilterCount(RowsOf(acc, last), OwnOf(own, last));
    }
  }

  lemma SameSize<T>(a: seq<T>, b: seq<T>)
    requires multiset(a) == multiset(b)
    ensures |a| == |b|
  {
    assert |multiset(a)| == |a| && |multiset(b)| == |b|;
  }

  /** The thinned product gives as many rows as the product if and only if that gives none, or thinning drops nothing;
      and then it gives the same rows. */
  lemma ThinnedExact(tables: seq<string>, own: map<string, seq<Cond>>, acc: Access, conds: seq<Cond>)
    requires tables != [] && OwnColumns(acc)
    ensures var thinned := FilterRows(CrossThinned(tables, own, acc), conds);
            var all := FilterRows(CrossAll(tables, acc), conds);
            && |thinned| <= |all|
            && (|thinned| == |all| <==> all == [] || AllKept(tables, own, acc))
            && (|thinned| == |all| ==> thinned == all)
  {
    var firsts := FilterRows(CrossAll(Firsts(tables), acc), conds);
    var thinned, all := FilterRows(CrossThinned(tables, own, acc), conds), FilterRows(CrossAll(tables, acc), conds);
    var m, n := Repeats(tables, own, acc), Repeats(tables, map[], acc);
    FilteredIsCopies(tables, own, acc, conds);
    SelfJoinRepeats(tables, acc, conds);
    SameSize(thinned, Copies(firsts, m));
    SameSize(all, Copies(firsts, n));
    RepeatsExact(tables, own, acc);
    ProductsEqual(m, n, |firsts|, |firsts|);
    if AllKept(tables, own, acc) { KeptIsAll(tables, own, acc); }
  }
}
