/** Query plans and what they yield, and why one more join in a plan is one more factor of the query's meaning. */
module Plans {
  import opened Relational

  /** the column pair of an index nested-loop join: the inner scan is rebound to each outer value */
  datatype Key = NoKey | Key(outer: Col, inner: Col)
  /** the left row that bind_join_key has handed to the right child, if any */
  datatype Bound = Unbound | Bound(row: Row)

  datatype Plan =
    | Scan(tab: string, conds: seq<Cond>, key: Key)
    | Derived(tab: string)
    | Filter(sub: Plan, conds: seq<Cond>)
    | Project(sub: Plan, cols: seq<Col>)
    | Join(left: Plan, right: Plan, conds: seq<Cond>)

  function ProjectRow(row: Row, cols: seq<Col>): Row
  {
    map c | c in row && c in cols :: row[c]
  }

  function ProjectRows(rows: seq<Row>, cols: seq<Col>): (r: seq<Row>)
    ensures |r| == |rows| && forall i :: 0 <= i < |rows| ==> r[i] == ProjectRow(rows[i], cols)
  {
    if rows == [] then [] else [ProjectRow(rows[0], cols)] + ProjectRows(rows[1..], cols)
  }

  /** The condition that beginTuple of a join's inner index scan adds. */
  function KeyConds(key: Key, b: Bound): seq<Cond>
  {
    if key.Key? && b.Bound? && key.outer in b.row then [Cond(key.inner, EQ, Val(b.row[key.outer]))] else []
  }

  predicate Ready(key: Key, b: Bound)
  {
    key.NoKey? || (b.Bound? && key.outer in b.row)
  }

  /** The rows of a plan, given the order in which each source yields its own. */
  function Eval(plan: Plan, acc: Access, b: Bound): seq<Row>
    decreases plan, 0, 0
  {
    match plan
    case Scan(tab, conds, key) => if Ready(key, b) then FilterRows(RowsOf(acc, tab), conds + KeyConds(key, b)) else []
    case Derived(tab) => RowsOf(acc, tab)
    case Filter(sub, conds) => FilterRows(Eval(sub, acc, b), conds)
    case Project(sub, cols) => ProjectRows(Eval(sub, acc, b), cols)
    case Join(left, right, conds) => JoinRows(Eval(left, acc, Unbound), right, conds, acc)
  }

  /** The right side is evaluated anew for each left row. */
  function JoinRows(ls: seq<Row>, right: Plan, conds: seq<Cond>, acc: Access): seq<Row>
    decreases right, 1, |ls|
  {
    if ls == [] then []
    else FilterRows(PairRows(ls[0], Eval(right, acc, Bound(ls[0]))), conds) + JoinRows(ls[1..], right, conds, acc)
  }

  /** All conditions placed anywhere in a plan. */
  function Placed(plan: Plan): multiset<Cond>
  {
    match plan
    case Scan(_, conds, _) => multiset(conds)
    case Derived(_) => multiset{}
    case Filter(sub, conds) => multiset(conds) + Placed(sub)
    case Project(sub, _) => Placed(sub)
    case Join(left, right, conds) => Placed(left) + Placed(right) + multiset(conds)
  }

  // ---------- rows that agree on the columns still needed ----------

  ghost predicate AgreeRow(p: Row, f: Row, need: iset<Col>)
  {
    forall c :: c in need ==> (c in p <==> c in f) && (c in p && c in f ==> p[c] == f[c])
  }

  ghost predicate Agree(ps: seq<Row>, fs: seq<Row>, need: iset<Col>)
  {
    |ps| == |fs| && forall i :: 0 <= i < |ps| ==> AgreeRow(ps[i], fs[i], need)
  }

  ghost predicate Needs(conds: seq<Cond>, need: iset<Col>)
  {
    forall c <- conds :: c.lhs in need && (c.rhs.ColRef? ==> c.rhs.c in need)
  }

  ghost const EVERY_COLUMN: iset<Col> := iset c: Col | true

  lemma AgreeEverywhere(ps: seq<Row>, fs: seq<Row>)
    requires Agree(ps, fs, EVERY_COLUMN)
    ensures ps == fs
  {
    forall i | 0 <= i < |ps| ensures ps[i] == fs[i]
    {
      assert AgreeRow(ps[i], fs[i], EVERY_COLUMN);
      assert forall c :: c in EVERY_COLUMN;
      assert forall c :: c in ps[i] <==> c in fs[i];
      assert forall c :: c in ps[i] ==> ps[i][c] == fs[i][c];
    }
  }

  lemma AgreeFewer(ps: seq<Row>, fs: seq<Row>, need: iset<Col>, need': iset<Col>)
    requires Agree(ps, fs, need) && need' <= need
    ensures Agree(ps, fs, need')
  {
    forall i | 0 <= i < |ps| ensures AgreeRow(ps[i], fs[i], need')
    {
      assert AgreeRow(ps[i], fs[i], need);
    }
  }

  lemma AgreeSat(p: Row, f: Row, conds: seq<Cond>, need: iset<Col>)
    requires AgreeRow(p, f, need) && Needs(conds, need)
    ensures AllSat(p, conds) == AllSat(f, conds)
  {
    forall c <- conds ensures Sat(p, c) == Sat(f, c)
    {
    }
  }

  lemma AgreeConcat(ps: seq<Row>, fs: seq<Row>, ps': seq<Row>, fs': seq<Row>, need: iset<Col>)
    requires Agree(ps, fs, need) && Agree(ps', fs', need)
    ensures Agree(ps + ps', fs + fs', need)
  {
  }

  lemma {:induction false} AgreeFilter(ps: seq<Row>, fs: seq<Row>, conds: seq<Cond>, need: iset<Col>)
    requires Agree(ps, fs, need) && Needs(conds, need)
    ensures Agree(FilterRows(ps, conds), FilterRows(fs, conds), need)
  {
    if ps != [] {
      AgreeSat(ps[0], fs[0], conds, need);
      AgreeFilter(ps[1..], fs[1..], conds, need);
      var hp := if AllSat(ps[0], conds) then [ps[0]] else [];
      var hf := if AllSat(fs[0], conds) then [fs[0]] else [];
      AgreeConcat(hp, hf, FilterRows(ps[1..], conds), FilterRows(fs[1..], conds), need);
    }
  }

  lemma AgreePairs(p: Row, f: Row, ps: seq<Row>, fs: seq<Row>, need: iset<Col>)
    requires AgreeRow(p, f, need) && Agree(ps, fs, need)
    ensures Agree(PairRows(p, ps), PairRows(f, fs), need)
  {
    forall i | 0 <= i < |ps| ensures AgreeRow(Merge(p, ps[i]), Merge(f, fs[i]), need)
    {
      assert AgreeRow(ps[i], fs[i], need);
    }
  }

  // ---------- leaves ----------

  /** A leaf yields its source's rows that satisfy conds (and the bound key), up to columns nobody needs. */
  ghost predicate LeafFor(leaf: Plan, acc: Access, tab: string, conds: seq<Cond>, key: Key, need: iset<Col>)
  {
    forall b {:trigger Eval(leaf, acc, b)} ::
      if Ready(key, b) then Agree(Eval(leaf, acc, b), FilterRows(RowsOf(acc, tab), KeyConds(key, b) + conds), need)
      else Eval(leaf, acc, b) == []
  }

  lemma AgreeSelf(rows: seq<Row>, need: iset<Col>)
    ensures Agree(rows, rows, need)
  {
  }

  lemma ScanLeaf(acc: Access, tab: string, conds: seq<Cond>, key: Key, need: iset<Col>)
    ensures LeafFor(Scan(tab, conds, key), acc, tab, conds, key, need)
  {
    var leaf := Scan(tab, conds, key);
    forall b | Ready(key, b)
      ensures Agree(Eval(leaf, acc, b), FilterRows(RowsOf(acc, tab), KeyConds(key, b) + conds), need)
    {
      var rows := RowsOf(acc, tab);
      forall row <- rows ensures AllSat(row, conds + KeyConds(key, b)) == AllSat(row, KeyConds(key, b) + conds)
      {
        AllSatConcat(row, conds, KeyConds(key, b));
        AllSatConcat(row, KeyConds(key, b), conds);
      }
      FilterSame(rows, conds + KeyConds(key, b), KeyConds(key, b) + conds);
      AgreeSelf(Eval(leaf, acc, b), need);
    }
  }

  lemma DerivedLeaf(acc: Access, tab: string, need: iset<Col>)
    ensures LeafFor(Derived(tab), acc, tab, [], NoKey, need)
  {
    forall b ensures Agree(Eval(Derived(tab), acc, b), FilterRows(RowsOf(acc, tab), KeyConds(NoKey, b) + []), need)
    {
      FilterAll(RowsOf(acc, tab));
      assert KeyConds(NoKey, b) + [] == [];
      AgreeSelf(RowsOf(acc, tab), need);
    }
  }

  lemma FilterLeaf(leaf: Plan, acc: Access, tab: string, conds: seq<Cond>, key: Key, need: iset<Col>)
    requires LeafFor(leaf, acc, tab, [], key, need) && Needs(conds, need)
    ensures LeafFor(Filter(leaf, conds), acc, tab, conds, key, need)
  {
    forall b ensures
      if Ready(key, b) then Agree(Eval(Filter(leaf, conds), acc, b),
                                  FilterRows(RowsOf(acc, tab), KeyConds(key, b) + conds), need)
      else Eval(Filter(leaf, conds), acc, b) == []
    {
      var rows := Eval(leaf, acc, b);
      if Ready(key, b) {
        var kc := KeyConds(key, b);
        assert kc + [] == kc;
        AgreeFilter(rows, FilterRows(RowsOf(acc, tab), kc), conds, need);
        FilterTwice(RowsOf(acc, tab), kc, conds);
      }
    }
  }

  /** A projection may be put on a leaf when it keeps the source's columns that are still needed. */
  lemma ProjectLeaf(leaf: Plan, acc: Access, tab: string, conds: seq<Cond>, key: Key, need: iset<Col>,
                    need': iset<Col>, cols: seq<Col>)
    requires LeafFor(leaf, acc, tab, conds, key, need) && OwnColumns(acc) && need' <= need
    requires forall c :: c in need' && c.tab == tab ==> c in cols
    ensures LeafFor(Project(leaf, cols), acc, tab, conds, key, need')
  {
    forall b ensures
      if Ready(key, b) then Agree(Eval(Project(leaf, cols), acc, b),
                                  FilterRows(RowsOf(acc, tab), KeyConds(key, b) + conds), need')
      else Eval(Project(leaf, cols), acc, b) == []
    {
      if Ready(key, b) {
        ProjectAgree(Eval(leaf, acc, b), acc, tab, KeyConds(key, b) + conds, need, need', cols);
      } else {
        assert Eval(leaf, acc, b) == [];
      }
    }
  }

  lemma ProjectAgree(rows: seq<Row>, acc: Access, tab: string, conds: seq<Cond>, need: iset<Col>, need': iset<Col>,
                     cols: seq<Col>)
    requires Agree(rows, FilterRows(RowsOf(acc, tab), conds), need) && OwnColumns(acc) && need' <= need
    requires forall c :: c in need' && c.tab == tab ==> c in cols
    ensures Agree(ProjectRows(rows, cols), FilterRows(RowsOf(acc, tab), conds), need')
  {
    var full := FilterRows(RowsOf(acc, tab), conds);
    forall i | 0 <= i < |rows| ensures AgreeRow(ProjectRow(rows[i], cols), full[i], need')
    {
      assert AgreeRow(rows[i], full[i], need);
      assert full[i] in full;
      FilterMembers(RowsOf(acc, tab), conds);
    }
  }

  // ---------- one more join ----------

  /** The key of an index nested-loop join is one of the join's equality conditions, either way round. */
  ghost predicate KeyFrom(key: Key, conds: seq<Cond>, tab: string, tabs: set<string>)
  {
    key.Key? ==>
      && key.inner.tab == tab && key.outer.tab in tabs
      && (Cond(key.inner, EQ, ColRef(key.outer)) in conds || Cond(key.outer, EQ, ColRef(key.inner)) in conds)
  }

  /** A pair that satisfies the join conditions satisfies the bound key. */
  lemma KeyImplied(p: Row, f: Row, r: Row, key: Key, conds: seq<Cond>, tab: string, tabs: set<string>, need: iset<Col>)
    requires KeyFrom(key, conds, tab, tabs) && tab !in tabs && Within(f, tabs) && Within(r, {tab})
    requires AgreeRow(p, f, need) && Needs(conds, need) && AllSat(Merge(f, r), conds)
    ensures Ready(key, Bound(p)) && AllSat(r, KeyConds(key, Bound(p)))
  {
    if key.Key? {
      var c := if Cond(key.inner, EQ, ColRef(key.outer)) in conds then Cond(key.inner, EQ, ColRef(key.outer))
               else Cond(key.outer, EQ, ColRef(key.inner));
      assert Sat(Merge(f, r), c);
      assert key.inner !in f && key.outer !in r;
      assert key.outer in f && key.outer in need;
      assert key.inner in r;
    }
  }

  lemma {:induction false} PairFilter(f: Row, rs: seq<Row>, ds: seq<Cond>, conds: seq<Cond>, all: seq<Cond>)
    requires forall r <- rs :: AllSat(r, ds) && AllSat(Merge(f, r), conds) <==> AllSat(Merge(f, r), all)
    ensures FilterRows(PairRows(f, FilterRows(rs, ds)), conds) == FilterRows(PairRows(f, rs), all)
  {
    if rs != [] {
      assert rs[0] in rs;
      PairFilter(f, rs[1..], ds, conds, all);
      var head := if AllSat(rs[0], ds) then [rs[0]] else [];
      PairConcat(f, head, FilterRows(rs[1..], ds));
      FilterConcat(PairRows(f, head), PairRows(f, FilterRows(rs[1..], ds)), conds);
      assert PairRows(f, rs) == [Merge(f, rs[0])] + PairRows(f, rs[1..]);
      assert PairRows(f, head) == if AllSat(rs[0], ds) then [Merge(f, rs[0])] else [];
    }
  }

  /** One left row: pairing it with the right child's rows and checking the join conditions. */
  lemma OneLeftRow(acc: Access, p: Row, f: Row, right: Plan, taken: seq<Cond>, tab: string, single: seq<Cond>, key: Key,
                   conds: seq<Cond>, tabs: set<string>, need: iset<Col>)
    requires LeafFor(right, acc, tab, single, key, need) && OwnColumns(acc)
    requires AgreeRow(p, f, need) && AllSat(f, taken) && Within(f, tabs) && tab !in tabs
    requires (forall c <- taken :: Mentions(c, tabs)) && (forall c <- single :: Mentions(c, {tab}))
    requires KeyFrom(key, conds, tab, tabs) && Needs(conds, need)
    ensures Agree(FilterRows(PairRows(p, Eval(right, acc, Bound(p))), conds),
                  FilterRows(PairRows(f, RowsOf(acc, tab)), taken + single + conds), need)
  {
    var rs, b, all := RowsOf(acc, tab), Bound(p), taken + single + conds;
    forall r <- rs ensures AllSat(Merge(f, r), all) <==> AllSat(r, single) && AllSat(Merge(f, r), conds)
    {
      PairSat(f, r, taken, tab, single, conds, tabs);
    }
    forall r <- rs | AllSat(Merge(f, r), conds) ensures Ready(key, b) && AllSat(r, KeyConds(key, b))
    {
      KeyImplied(p, f, r, key, conds, tab, tabs, need);
    }
    if Ready(key, b) {
      var ds := KeyConds(key, b) + single;
      forall r <- rs ensures AllSat(r, ds) && AllSat(Merge(f, r), conds) <==> AllSat(Merge(f, r), all)
      {
        AllSatConcat(r, KeyConds(key, b), single);
      }
      PairFilter(f, rs, ds, conds, all);
      AgreePairs(p, f, Eval(right, acc, b), FilterRows(rs, ds), need);
      AgreeFilter(PairRows(p, Eval(right, acc, b)), PairRows(f, FilterRows(rs, ds)), conds, need);
    } else {
      FilterNone(PairRows(f, rs), all);
    }
  }

  lemma PairSat(f: Row, r: Row, taken: seq<Cond>, tab: string, single: seq<Cond>, conds: seq<Cond>, tabs: set<string>)
    requires AllSat(f, taken) && Within(f, tabs) && Within(r, {tab}) && tab !in tabs
    requires (forall c <- taken :: Mentions(c, tabs)) && (forall c <- single :: Mentions(c, {tab}))
    ensures AllSat(Merge(f, r), taken + single + conds) <==> AllSat(r, single) && AllSat(Merge(f, r), conds)
  {
    AllSatConcat(Merge(f, r), taken + single, conds);
    AllSatConcat(Merge(f, r), taken, single);
    SeesLeft(f, r, taken, tabs, tab);
    SeesRight(f, r, single, tabs, tab);
  }

  /** Joining the rows of a prefix with one more source multiplies and filters its meaning. */
  lemma {:induction false} JoinStep(acc: Access, ps: seq<Row>, fs: seq<Row>, right: Plan, taken: seq<Cond>, tab: string,
                                    single: seq<Cond>, key: Key, conds: seq<Cond>, tabs: set<string>, need: iset<Col>)
    requires LeafFor(right, acc, tab, single, key, need) && OwnColumns(acc) && tab !in tabs
    requires Agree(ps, FilterRows(fs, taken), need) && forall f <- fs :: Within(f, tabs)
    requires (forall c <- taken :: Mentions(c, tabs)) && (forall c <- single :: Mentions(c, {tab}))
    requires KeyFrom(key, conds, tab, tabs) && Needs(conds, need)
    ensures Agree(JoinRows(ps, right, conds, acc),
                  FilterRows(CrossRows(fs, RowsOf(acc, tab)), taken + single + conds), need)
  {
    if fs != [] {
      var f, rs, all := fs[0], RowsOf(acc, tab), taken + single + conds;
      FilterConcat(PairRows(f, rs), CrossRows(fs[1..], rs), all);
      if AllSat(f, taken) {
        assert FilterRows(fs, taken) == [f] + FilterRows(fs[1..], taken);
        assert AgreeRow(ps[0], f, need);
        OneLeftRow(acc, ps[0], f, right, taken, tab, single, key, conds, tabs, need);
        JoinStep(acc, ps[1..], fs[1..], right, taken, tab, single, key, conds, tabs, need);
        AgreeConcat(FilterRows(PairRows(ps[0], Eval(right, acc, Bound(ps[0]))), conds),
                    FilterRows(PairRows(f, rs), all),
                    JoinRows(ps[1..], right, conds, acc), FilterRows(CrossRows(fs[1..], rs), all), need);
      } else {
        RejectedLeft(f, rs, taken, single + conds, tabs, tab);
        assert taken + (single + conds) == all;
        JoinStep(acc, ps, fs[1..], right, taken, tab, single, key, conds, tabs, need);
      }
    }
  }

  lemma {:induction false} RejectedLeft(f: Row, rs: seq<Row>, taken: seq<Cond>, more: seq<Cond>, tabs: set<string>,
                                        tab: string)
    requires !AllSat(f, taken) && (forall c <- taken :: Mentions(c, tabs)) && tab !in tabs
    requires forall r <- rs :: Within(r, {tab})
    ensures FilterRows(PairRows(f, rs), taken + more) == []
  {
    if rs != [] {
      assert rs[0] in rs;
      AllSatConcat(Merge(f, rs[0]), taken, more);
      SeesLeft(f, rs[0], taken, tabs, tab);
      RejectedLeft(f, rs[1..], taken, more, tabs, tab);
    }
  }

  // ---------- a source that is joined a second time ----------

  /** All rows have the row's columns already, so that pairing only repeats it. */
  lemma {:induction false} PairRepeats(f: Row, rs: seq<Row>, taken: seq<Cond>)
    requires forall r <- rs :: r.Keys <= f.Keys
    ensures FilterRows(PairRows(f, rs), taken) == if AllSat(f, taken) then PairRows(f, rs) else []
  {
    if rs != [] {
      assert rs[0] in rs;
      MergeKeys(f, rs[0]);
      assert PairRows(f, rs)[1..] == PairRows(f, rs[1..]);
      PairRepeats(f, rs[1..], taken);
    }
  }

  /** The rows fs have all columns of the rows rs. */
  ghost predicate HaveColumns(fs: seq<Row>, rs: seq<Row>)
  {
    forall f <- fs, r <- rs :: r.Keys <= f.Keys
  }

  /** Whatever is bound, the plan yields these rows. */
  ghost predicate AlwaysYields(plan: Plan, acc: Access, rs: seq<Row>, need: iset<Col>)
  {
    forall b {:trigger Eval(plan, acc, b)} :: Agree(Eval(plan, acc, b), rs, need)
  }

  lemma LeafYields(leaf: Plan, acc: Access, tab: string, single: seq<Cond>, need: iset<Col>)
    requires LeafFor(leaf, acc, tab, single, NoKey, need)
    ensures AlwaysYields(leaf, acc, FilterRows(RowsOf(acc, tab), single), need)
  {
    forall b ensures Agree(Eval(leaf, acc, b), FilterRows(RowsOf(acc, tab), single), need) {
      assert Ready(NoKey, b) && KeyConds(NoKey, b) + single == single;
    }
  }

  /** A later occurrence of a source gets no join conditions; its rows only repeat those joined before. */
  lemma {:induction false} JoinAgain(acc: Access, ps: seq<Row>, fs: seq<Row>, right: Plan, taken: seq<Cond>,
                                     rs: seq<Row>, need: iset<Col>)
    requires AlwaysYields(right, acc, rs, need) && Agree(ps, FilterRows(fs, taken), need) && HaveColumns(fs, rs)
    ensures Agree(JoinRows(ps, right, [], acc), FilterRows(CrossRows(fs, rs), taken), need)
  {
    if fs != [] {
      var f := fs[0];
      AgainSplit(fs, rs, taken);
      if AllSat(f, taken) {
        AgreeTail(ps, f, FilterRows(fs[1..], taken), need);
        JoinAgain(acc, ps[1..], fs[1..], right, taken, rs, need);
        AgainHead(acc, ps, f, FilterRows(CrossRows(fs[1..], rs), taken), right, rs, need);
      } else {
        JoinAgain(acc, ps, fs[1..], right, taken, rs, need);
      }
    }
  }

  lemma AgreeTail(ps: seq<Row>, f: Row, rest: seq<Row>, need: iset<Col>)
    requires Agree(ps, [f] + rest, need)
    ensures ps != [] && AgreeRow(ps[0], f, need) && Agree(ps[1..], rest, need)
  {
    assert ([f] + rest)[0] == f;
    forall i | 0 <= i < |rest| ensures AgreeRow(ps[i + 1], rest[i], need) {
      assert ([f] + rest)[i + 1] == rest[i];
    }
  }

  lemma AgainHead(acc: Access, ps: seq<Row>, f: Row, more: seq<Row>, right: Plan, rs: seq<Row>, need: iset<Col>)
    requires AlwaysYields(right, acc, rs, need) && ps != [] && AgreeRow(ps[0], f, need)
    requires Agree(JoinRows(ps[1..], right, [], acc), more, need)
    ensures Agree(JoinRows(ps, right, [], acc), PairRows(f, rs) + more, need)
  {
    var rows := Eval(right, acc, Bound(ps[0]));
    AgreePairs(ps[0], f, rows, rs, need);
    FilterAll(PairRows(ps[0], rows));
    AgreeConcat(PairRows(ps[0], rows), PairRows(f, rs), JoinRows(ps[1..], right, [], acc), more, need);
  }

  lemma AgainSplit(fs: seq<Row>, rs: seq<Row>, taken: seq<Cond>)
    requires fs != [] && HaveColumns(fs, rs)
    ensures HaveColumns(fs[1..], rs)
    ensures FilterRows(CrossRows(fs, rs), taken) ==
              (if AllSat(fs[0], taken) then PairRows(fs[0], rs) else []) + FilterRows(CrossRows(fs[1..], rs), taken)
  {
    assert fs[0] in fs;
    FilterConcat(PairRows(fs[0], rs), CrossRows(fs[1..], rs), taken);
    PairRepeats(fs[0], rs, taken);
  }
}
