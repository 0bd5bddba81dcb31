/** A self join on which EXPLAIN ANALYZE and the query disagree: select a.x from t a, t b where a.x = 1,
    over a table t with the rows 1 and 2. */
module ExplainSelfJoin {
  import opened Common
  import opened Relational
  import opened Plans
  import Planner
  import opened ExplainPlan
  import opened Executors

  const X: Col := Col("t", "x")
  const ONE: Row := map[X := IntVal(1)]
  const TWO: Row := map[X := IntVal(2)]
  const IS_ONE: Cond := Cond(X, EQ, Val(IntVal(1)))
  const SOURCES: Access := map["t" := [ONE, TWO]]

  lemma Sources()
    ensures OwnColumns(SOURCES)
  {
  }

  lemma Rows()
    ensures AllSat(ONE, [IS_ONE]) && !AllSat(TWO, [IS_ONE])
    ensures Merge(ONE, ONE) == Merge(ONE, TWO) == ONE && Merge(TWO, ONE) == Merge(TWO, TWO) == TWO
  {
    assert IS_ONE in [IS_ONE] && !Sat(TWO, IS_ONE);
    MergeKeys(ONE, ONE);
    MergeKeys(ONE, TWO);
    MergeKeys(TWO, ONE);
    MergeKeys(TWO, TWO);
  }

  lemma Filters()
    ensures FilterRows([ONE, TWO], [IS_ONE]) == [ONE] && FilterRows([ONE, ONE, TWO, TWO], [IS_ONE]) == [ONE, ONE]
  {
    Rows();
    FilterConcat([ONE], [TWO], [IS_ONE]);
    FilterConcat([ONE, ONE], [TWO, TWO], [IS_ONE]);
    FilterConcat([ONE], [ONE], [IS_ONE]);
    FilterConcat([TWO], [TWO], [IS_ONE]);
  }

  lemma Products()
    ensures CrossRows([ONE, TWO], [ONE, TWO]) == [ONE, ONE, TWO, TWO] && CrossRows([ONE, TWO], [ONE]) == [ONE, TWO]
  {
    Rows();
    CrossConcat([ONE], [TWO], [ONE, TWO]);
    CrossConcat([ONE], [TWO], [ONE]);
    assert CrossRows([ONE], [ONE, TWO]) == PairRows(ONE, [ONE, TWO]) == [ONE, ONE];
    assert CrossRows([TWO], [ONE, TWO]) == PairRows(TWO, [ONE, TWO]) == [TWO, TWO];
    assert CrossRows([ONE], [ONE]) == PairRows(ONE, [ONE]) == [ONE];
    assert CrossRows([TWO], [ONE]) == PairRows(TWO, [ONE]) == [TWO];
  }

  lemma AllRows()
    ensures FilterRows(CrossAll(["t", "t"], SOURCES), [IS_ONE]) == [ONE, ONE]
  {
    assert ["t", "t"][..1] == ["t"];
    Products();
    Filters();
  }

  lemma ThinnedRows()
    ensures FilterRows(CrossThinned(["t", "t"], OwnMap(["t", "t"], [IS_ONE]), SOURCES), [IS_ONE]) == [ONE]
  {
    assert ["t", "t"][..1] == ["t"];
    assert Own([IS_ONE], "t") == [IS_ONE];
    Products();
    Filters();
  }

  /** The query has two rows. */
  method Select() returns (rows: seq<Row>)
    ensures rows == [ONE, ONE]
  {
    Sources();
    AllRows();
    var found := RunQuery(["t", "t"], [IS_ONE], {}, {}, SOURCES);
    rows := found.value;
  }

  /** EXPLAIN ANALYZE filters the second occurrence too, and finds one; its plan checks the one condition twice. */
  method Explain() returns (plan: Plan, rows: seq<Row>)
    ensures rows == [ONE] && Placed(plan) == multiset{IS_ONE, IS_ONE}
  {
    Sources();
    ThinnedRows();
    plan := Generate();
    rows := Drain(plan, SOURCES);
    assert ProjectRows([ONE], [X])[0] == ProjectRow(ONE, [X]) == ONE;
  }

  method Generate() returns (plan: Plan)
    ensures YieldsColumns(plan, ["t", "t"], [IS_ONE], [X]) && Placed(plan) == multiset{IS_ONE, IS_ONE}
  {
    var generated := GenerateExplainPlan(["t", "t"], [IS_ONE], [X], false, {}, {});
    plan := generated.value;
    CheckedTwice();
  }

  lemma CheckedTwice()
    ensures multiset(Checked(["t", "t"], [IS_ONE])) == multiset{IS_ONE, IS_ONE}
  {
    NoJoinConds();
    assert Own([IS_ONE], "t") == [IS_ONE];
    assert ["t", "t"][1..] == ["t"] && ["t"][1..] == [];
    assert OwnEach(["t"], [IS_ONE]) == [IS_ONE] + OwnEach([], [IS_ONE]) == [IS_ONE];
    assert OwnEach(["t", "t"], [IS_ONE]) == [IS_ONE] + OwnEach(["t"], [IS_ONE]);
  }

  lemma NoJoinConds()
    ensures Others([IS_ONE], Planner.Tabs(["t", "t"])) == []
  {
    assert "t" in ["t", "t"];
    assert !IsOther(IS_ONE, Planner.Tabs(["t", "t"]));
    assert [IS_ONE][..0] == [];
  }
}
