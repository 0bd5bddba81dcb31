/** The planner of src/optimizer: predicate placement, index nested-loop joins and projection pushdown
    leave the meaning of a query unchanged. */
module Planner {
  import opened Common
  import opened Relational
  import opened Plans

  // ---------- taking conditions out of a list ----------

  function Where(conds: seq<Cond>, p: Cond -> bool): seq<Cond>
  {
    if conds == [] then []
    else
      var last := conds[|conds| - 1];
      Where(conds[..|conds| - 1], p) + if p(last) then [last] else []
  }

  lemma {:induction false} WhereMembers(conds: seq<Cond>, p: Cond -> bool)
    ensures forall c :: c in Where(conds, p) <==> c in conds && p(c)
  {
    if conds != [] {
      WhereMembers(conds[..|conds| - 1], p);
      assert conds == conds[..|conds| - 1] + [conds[|conds| - 1]];
    }
  }

  lemma WhereLast(rest: seq<Cond>, last: Cond, p: Cond -> bool)
    ensures Where(rest + [last], p) == if p(last) then Where(rest, p) + [last] else Where(rest, p)
  {
    assert (rest + [last])[..|rest|] == rest;
  }

  /** Taking and leaving lose and duplicate nothing. */
  lemma {:induction false} WhereSplits(conds: seq<Cond>, p: Cond -> bool, q: Cond -> bool)
    requires forall c :: q(c) <==> !p(c)
    ensures multiset(Where(conds, p)) + multiset(Where(conds, q)) == multiset(conds)
  {
    if conds != [] {
      var rest, last := conds[..|conds| - 1], conds[|conds| - 1];
      WhereSplits(rest, p, q);
      assert conds == rest + [last];
      WhereLast(rest, last, p);
      WhereLast(rest, last, q);
      BagGrows(Where(rest, p), Where(rest, q), rest, last);
    }
  }

  lemma BagGrows(a: seq<Cond>, b: seq<Cond>, rest: seq<Cond>, last: Cond)
    requires multiset(a) + multiset(b) == multiset(rest)
    ensures multiset(a + [last]) + multiset(b) == multiset(rest + [last])
    ensures multiset(a) + multiset(b + [last]) == multiset(rest + [last])
  {
    assert multiset(a + [last]) == multiset(a) + multiset{last};
    assert multiset(b + [last]) == multiset(b) + multiset{last};
    assert multiset(rest + [last]) == multiset(rest) + multiset{last};
  }

  /** k conditions have been looked at; rest is those kept so far and those still to come. */
  ghost predicate TakeAt(conds: seq<Cond>, p: Cond -> bool, q: Cond -> bool, k: nat, it: nat, out: seq<Cond>,
                         rest: seq<Cond>)
  {
    && k <= |conds| && it == |Where(conds[..k], q)|
    && out == Where(conds[..k], p) && rest == Where(conds[..k], q) + conds[k..]
  }

  lemma TakeStep(conds: seq<Cond>, p: Cond -> bool, q: Cond -> bool, k: nat, it: nat, out: seq<Cond>, rest: seq<Cond>)
    requires TakeAt(conds, p, q, k, it, out, rest) && it < |rest| && forall c :: q(c) <==> !p(c)
    ensures k < |conds|
    ensures if p(rest[it]) then TakeAt(conds, p, q, k + 1, it, out + [rest[it]], rest[..it] + rest[it + 1..])
            else TakeAt(conds, p, q, k + 1, it + 1, out, rest)
  {
    var kept := Where(conds[..k], q);
    RestSplits(conds, k, it, kept, rest);
    WhereLast(conds[..k], conds[k], p);
    WhereLast(conds[..k], conds[k], q);
  }

  lemma RestSplits(conds: seq<Cond>, k: nat, it: nat, kept: seq<Cond>, rest: seq<Cond>)
    requires k <= |conds| && rest == kept + conds[k..] && it == |kept| < |rest|
    ensures k < |conds| && conds[..k + 1] == conds[..k] + [conds[k]] && rest[it] == conds[k]
    ensures rest[..it] + rest[it + 1..] == kept + conds[k + 1..] && rest == (kept + [conds[k]]) + conds[k + 1..]
  {
  }

  /** The erase loop of take_single_table_conds, take_join_conds and generate_explain_plan. */
  method Take(conds: seq<Cond>, p: Cond -> bool) returns (out: seq<Cond>, rest: seq<Cond>)
    ensures out == Where(conds, p) && rest == Where(conds, c => !p(c))
    ensures multiset(out) + multiset(rest) == multiset(conds)
    ensures (forall c <- out :: p(c) && c in conds) && forall c <- rest :: !p(c) && c in conds
  {
    ghost var q := c => !p(c);
    out, rest := [], conds;
    var it := 0;
    ghost var k := 0;
    assert conds[..0] == [] && conds[0..] == conds;
    while it < |rest|
      invariant TakeAt(conds, p, q, k, it, out, rest)
      decreases |conds| - k
    {
      TakeStep(conds, p, q, k, it, out, rest);
      if p(rest[it]) {
        out := out + [rest[it]];
        rest := rest[..it] + rest[it + 1..];
      } else {
        it := it + 1;
      }
      k := k + 1;
    }
    assert conds[..k] == conds;
    WhereSplits(conds, p, q);
    WhereMembers(conds, p);
    WhereMembers(conds, q);
  }

  // ---------- which conditions belong where ----------

  predicate IsSingleTableCond(c: Cond, tab: string)
  {
    c.lhs.tab == tab && (c.rhs.Val? || c.rhs.c.tab == tab)
  }

  /** take_join_conds and cond_applicable */
  predicate IsJoinCond(c: Cond, joined: seq<string>, right: string)
  {
    && c.rhs.ColRef?
    && ((c.lhs.tab in joined && c.rhs.c.tab == right) || (c.rhs.c.tab in joined && c.lhs.tab == right))
  }

  function Tabs(tables: seq<string>): set<string>
  {
    set t | t in tables
  }

  /** All conditions over one source have been taken for the first n sources. */
  ghost predicate SinglesTaken(rest: seq<Cond>, tables: seq<string>, n: nat)
  {
    forall c <- rest, j: nat | j < n && j < |tables| :: !IsSingleTableCond(c, tables[j])
  }

  /** No remaining condition could have been checked over the first n sources. */
  ghost predicate Pending(rest: seq<Cond>, tables: seq<string>, n: nat)
    requires n <= |tables|
  {
    forall c <- rest :: !Mentions(c, Tabs(tables[..n]))
  }

  lemma PendingStep(rest: seq<Cond>, rest': seq<Cond>, tables: seq<string>, i: nat)
    requires i < |tables| && Pending(rest, tables, i) && SinglesTaken(rest, tables, |tables|)
    requires forall c <- rest' :: c in rest && !IsJoinCond(c, tables[..i], tables[i])
    ensures Pending(rest', tables, i + 1)
  {
    assert tables[..i + 1] == tables[..i] + [tables[i]];
    forall c <- rest' ensures !Mentions(c, Tabs(tables[..i + 1]))
    {
      assert !IsSingleTableCond(c, tables[i]);
      assert !Mentions(c, Tabs(tables[..i]));
    }
  }

  lemma PendingFirst(rest: seq<Cond>, tables: seq<string>)
    requires tables != [] && SinglesTaken(rest, tables, |tables|)
    ensures Pending(rest, tables, 1)
  {
    assert tables[..1] == [tables[0]];
    forall c <- rest ensures !Mentions(c, Tabs(tables[..1]))
    {
      assert !IsSingleTableCond(c, tables[0]);
    }
  }

  /** Once every source is joined nothing is left for push_conds. */
  lemma NothingLeft(rest: seq<Cond>, tables: seq<string>)
    requires Pending(rest, tables, |tables|) && forall c <- rest :: Mentions(c, Tabs(tables))
    ensures rest == []
  {
    assert tables[..|tables|] == tables;
    SomeMember(rest);
  }

  lemma SomeMember(conds: seq<Cond>)
    ensures conds == [] || exists c :: c in conds
  {
    if conds != [] { assert conds[0] in conds; }
  }

  // ---------- choosing an index nested-loop join ----------

  /** An equality between an indexed column of tab and a column already joined, seen from either side. */
  function UsableKey(c: Cond, tab: string, joined: seq<string>, indexed: set<Col>): (k: Key)
  {
    if c.op != EQ || c.rhs.Val? then NoKey
    else if c.lhs.tab == tab && c.rhs.c.tab in joined && c.lhs in indexed then Key(c.rhs.c, c.lhs)
    else if c.rhs.c.tab == tab && c.lhs.tab in joined && c.rhs.c in indexed then Key(c.lhs, c.rhs.c)
    else NoKey
  }

  /** The condition equates an indexed column of the source with a column of one that is already joined. */
  predicate OffersKey(c: Cond, tab: string, joined: seq<string>, indexed: set<Col>)
  {
    && c.op == EQ && c.rhs.ColRef?
    && (|| (IsInner(c.lhs, tab, indexed) && c.rhs.c.tab in joined)
        || (IsInner(c.rhs.c, tab, indexed) && c.lhs.tab in joined))
  }

  predicate IsInner(c: Col, tab: string, indexed: set<Col>)
  {
    c.tab == tab && c in indexed
  }

  lemma UsableIffOffers(c: Cond, tab: string, joined: seq<string>, indexed: set<Col>)
    ensures UsableKey(c, tab, joined, indexed).Key? <==> OffersKey(c, tab, joined, indexed)
  {
  }

  function KeyOf(leaf: Plan): Key
  {
    match leaf
    case Scan(_, _, key) => key
    case Derived(_) => NoKey
    case Filter(sub, _) => KeyOf(sub)
    case Project(sub, _) => KeyOf(sub)
    case Join(_, _, _) => NoKey
  }

  /** The scan of a source that is joined is bound to an outer column exactly when a join condition allows it. */
  ghost predicate KeyChosen(key: Key, conds: seq<Cond>, tab: string, joined: seq<string>, isDerived: bool,
                            indexed: set<Col>)
  {
    && KeyFrom(key, conds, tab, Tabs(joined)) && (key.Key? ==> key.inner in indexed)
    && (key.NoKey? <==> isDerived || forall c <- conds :: !OffersKey(c, tab, joined, indexed))
  }

  /** choose_inlj_key: a key drawn from the join conditions, and none only when no condition offers one. */
  method ChooseInljKey(tab: string, joined: seq<string>, conds: seq<Cond>, indexed: set<Col>) returns (key: Key)
    ensures KeyFrom(key, conds, tab, Tabs(joined)) && (key.Key? ==> key.inner in indexed)
    ensures key.NoKey? <==> forall c <- conds :: !OffersKey(c, tab, joined, indexed)
  {
    for i := 0 to |conds|
      invariant forall j :: 0 <= j < i ==> !OffersKey(conds[j], tab, joined, indexed)
    {
      UsableIffOffers(conds[i], tab, joined, indexed);
      key := UsableKey(conds[i], tab, joined, indexed);
      if key.Key? {
        assert conds[i] in conds;
        assert Cond(key.inner, EQ, ColRef(key.outer)) == conds[i] || Cond(key.outer, EQ, ColRef(key.inner)) == conds[i];
        return;
      }
    }
    key := NoKey;
  }

  // ---------- what a plan means ----------

  /** Over any sources, the plan yields the rows of the product that satisfy conds, at least in the needed columns;
      own are the conditions that later occurrences of a source are filtered by. */
  ghost predicate Means(plan: Plan, tables: seq<string>, own: map<string, seq<Cond>>, conds: seq<Cond>, need: iset<Col>)
    requires tables != []
  {
    forall acc {:trigger Eval(plan, acc, Unbound)} :: OwnColumns(acc) ==>
      Agree(Eval(plan, acc, Unbound), FilterRows(CrossThinned(tables, own, acc), conds), need)
  }

  ghost predicate LeafMeans(leaf: Plan, tab: string, conds: seq<Cond>, key: Key, need: iset<Col>)
  {
    forall acc {:trigger OwnColumns(acc)} :: OwnColumns(acc) ==> LeafFor(leaf, acc, tab, conds, key, need)
  }

  lemma FirstSource(leaf: Plan, tab: string, own: map<string, seq<Cond>>, conds: seq<Cond>, need: iset<Col>)
    requires LeafMeans(leaf, tab, conds, NoKey, need)
    ensures Means(leaf, [tab], own, conds, need)
  {
    forall acc | OwnColumns(acc)
      ensures Agree(Eval(leaf, acc, Unbound), FilterRows(CrossThinned([tab], own, acc), conds), need)
    {
      assert LeafFor(leaf, acc, tab, conds, NoKey, need);
      assert Ready(NoKey, Unbound);
      assert KeyConds(NoKey, Unbound) + conds == conds;
    }
  }

  /** A source that has been joined before gets no join conditions, and its own conditions are checked already. */
  ghost predicate AgainOk(prefix: seq<string>, tab: string, own: map<string, seq<Cond>>, taken: seq<Cond>,
                          single: seq<Cond>, conds: seq<Cond>)
  {
    tab in prefix ==> conds == [] && single == OwnOf(own, tab) && forall c <- single :: c in taken
  }

  lemma OneMoreSource(root: Plan, right: Plan, tables: seq<string>, i: nat, own: map<string, seq<Cond>>,
                      taken: seq<Cond>, single: seq<Cond>, key: Key, conds: seq<Cond>, need: iset<Col>)
    requires 0 < i < |tables| && Means(root, tables[..i], own, taken, need)
    requires AgainOk(tables[..i], tables[i], own, taken, single, conds)
    requires LeafMeans(right, tables[i], single, key, need)
    requires forall c <- taken :: Mentions(c, Tabs(tables[..i]))
    requires forall c <- single :: IsSingleTableCond(c, tables[i])
    requires KeyFrom(key, conds, tables[i], Tabs(tables[..i])) && Needs(conds, need)
    ensures Means(Join(root, right, conds), tables[..i + 1], own, taken + single + conds, need)
  {
    assert tables[..i + 1] == tables[..i] + [tables[i]];
    MeansNext(root, right, tables[..i], tables[i], own, taken, single, key, conds, need);
  }

  lemma MeansNext(root: Plan, right: Plan, prefix: seq<string>, tab: string, own: map<string, seq<Cond>>,
                  taken: seq<Cond>, single: seq<Cond>, key: Key, conds: seq<Cond>, need: iset<Col>)
    requires prefix != [] && Means(root, prefix, own, taken, need) && LeafMeans(right, tab, single, key, need)
    requires AgainOk(prefix, tab, own, taken, single, conds)
    requires forall c <- taken :: Mentions(c, Tabs(prefix))
    requires forall c <- single :: IsSingleTableCond(c, tab)
    requires KeyFrom(key, conds, tab, Tabs(prefix)) && Needs(conds, need)
    ensures Means(Join(root, right, conds), prefix + [tab], own, taken + single + conds, need)
  {
    forall acc | OwnColumns(acc)
      ensures Agree(Eval(Join(root, right, conds), acc, Unbound),
                    FilterRows(CrossThinned(prefix + [tab], own, acc), taken + single + conds), need)
    {
      assert LeafFor(right, acc, tab, single, key, need);
      var rows := Eval(root, acc, Unbound);
      assert Agree(rows, FilterRows(CrossThinned(prefix, own, acc), taken), need);
      JoinMeans(acc, rows, right, prefix, tab, own, taken, single, key, conds, need);
    }
  }

  lemma JoinMeans(acc: Access, rows: seq<Row>, right: Plan, prefix: seq<string>, tab: string,
                  own: map<string, seq<Cond>>, taken: seq<Cond>, single: seq<Cond>, key: Key, conds: seq<Cond>,
                  need: iset<Col>)
    requires prefix != [] && OwnColumns(acc) && LeafFor(right, acc, tab, single, key, need)
    requires AgainOk(prefix, tab, own, taken, single, conds)
    requires Agree(rows, FilterRows(CrossThinned(prefix, own, acc), taken), need)
    requires forall c <- taken :: Mentions(c, Tabs(prefix))
    requires forall c <- single :: IsSingleTableCond(c, tab)
    requires KeyFrom(key, conds, tab, Tabs(prefix)) && Needs(conds, need)
    ensures Agree(JoinRows(rows, right, conds, acc),
                  FilterRows(CrossThinned(prefix + [tab], own, acc), taken + single + conds), need)
  {
    assert (prefix + [tab])[..|prefix|] == prefix;
    var fs := CrossThinned(prefix, own, acc);
    if tab in prefix {
      var rs := LaterRows(acc, own, tab);
      LaterCovered(acc, prefix, tab, own);
      LeafYields(right, acc, tab, single, need);
      JoinAgain(acc, rows, fs, right, taken, rs, need);
      SameMembersFilter(CrossRows(fs, rs), taken, taken + single + conds);
    } else {
      forall f <- fs ensures Within(f, Tabs(prefix)) {
        ThinnedWithin(prefix, own, acc, f);
        CrossWithin(prefix, acc);
      }
      JoinStep(acc, rows, fs, right, taken, tab, single, key, conds, Tabs(prefix), need);
    }
  }

  lemma LaterCovered(acc: Access, prefix: seq<string>, tab: string, own: map<string, seq<Cond>>)
    requires prefix != [] && tab in prefix && OwnColumns(acc)
    ensures HaveColumns(CrossThinned(prefix, own, acc), LaterRows(acc, own, tab))
  {
    FilterMembers(RowsOf(acc, tab), OwnOf(own, tab));
    forall f <- CrossThinned(prefix, own, acc), r <- LaterRows(acc, own, tab) ensures r.Keys <= f.Keys {
      ThinnedWithin(prefix, own, acc, f);
      CrossCovers(prefix, acc, tab, f, r);
    }
  }

  lemma SameMembersFilter(rows: seq<Row>, conds: seq<Cond>, conds': seq<Cond>)
    requires forall c :: c in conds <==> c in conds'
    ensures FilterRows(rows, conds) == FilterRows(rows, conds')
  {
    FilterSame(rows, conds, conds');
  }

  lemma MeansFewer(plan: Plan, tables: seq<string>, own: map<string, seq<Cond>>, conds: seq<Cond>, need: iset<Col>,
                   need': iset<Col>)
    requires tables != [] && Means(plan, tables, own, conds, need) && need' <= need
    ensures Means(plan, tables, own, conds, need')
  {
    forall acc | OwnColumns(acc)
      ensures Agree(Eval(plan, acc, Unbound), FilterRows(CrossThinned(tables, own, acc), conds), need')
    {
      AgreeFewer(Eval(plan, acc, Unbound), FilterRows(CrossThinned(tables, own, acc), conds), need, need');
    }
  }

  lemma MeansSameConds(plan: Plan, tables: seq<string>, own: map<string, seq<Cond>>, conds: seq<Cond>,
                       conds': seq<Cond>, need: iset<Col>)
    requires tables != [] && Means(plan, tables, own, conds, need) && forall c :: c in conds <==> c in conds'
    ensures Means(plan, tables, own, conds', need)
  {
    forall acc
      ensures FilterRows(CrossThinned(tables, own, acc), conds) == FilterRows(CrossThinned(tables, own, acc), conds')
    {
      SameMembersFilter(CrossThinned(tables, own, acc), conds, conds');
    }
  }

  lemma SameBagSameMembers(conds: seq<Cond>, conds': seq<Cond>)
    requires multiset(conds) == multiset(conds')
    ensures forall c :: c in conds <==> c in conds'
  {
    forall c ensures c in conds <==> c in conds'
    {
      assert c in multiset(conds) <==> c in conds;
      assert c in multiset(conds') <==> c in conds';
    }
  }

  // ---------- leaves ----------

  /** build_source_scan_plan: a scan, or a filter over a derived source. */
  method BuildSourceScanPlan(isDerived: bool, tab: string, conds: seq<Cond>, key: Key) returns (leaf: Plan)
    requires isDerived ==> key.NoKey?
    ensures LeafMeans(leaf, tab, conds, key, EVERY_COLUMN) && Placed(leaf) == multiset(conds) && KeyOf(leaf) == key
  {
    if isDerived {
      leaf := Derived(tab);
      if conds != [] {
        leaf := Filter(leaf, conds);
      }
    } else {
      leaf := Scan(tab, conds, key);
    }
    forall acc | OwnColumns(acc) ensures LeafFor(leaf, acc, tab, conds, key, EVERY_COLUMN)
    {
      if isDerived {
        DerivedLeaf(acc, tab, EVERY_COLUMN);
        FilterLeaf(Derived(tab), acc, tab, conds, NoKey, EVERY_COLUMN);
      } else {
        ScanLeaf(acc, tab, conds, key, EVERY_COLUMN);
      }
    }
  }

  // ---------- single-table conditions ----------

  function Flat(ss: seq<seq<Cond>>): seq<Cond>
  {
    if ss == [] then [] else ss[0] + Flat(ss[1..])
  }

  lemma {:induction false} FlatConcat(ss: seq<seq<Cond>>, s: seq<Cond>)
    ensures Flat(ss + [s]) == Flat(ss) + s
  {
    if ss == [] {
      assert ss + [s] == [s];
    } else {
      assert (ss + [s])[1..] == ss[1..] + [s];
      FlatConcat(ss[1..], s);
    }
  }

  lemma BagMoved(done: seq<Cond>, moved: seq<Cond>, left: seq<Cond>, rest: seq<Cond>, conds: seq<Cond>)
    requires multiset(done) + multiset(rest) == multiset(conds) && multiset(moved) + multiset(left) == multiset(rest)
    ensures multiset(done + moved) + multiset(left) == multiset(conds)
  {
  }

  lemma SinglesStep(rest: seq<Cond>, left: seq<Cond>, tables: seq<string>, i: nat)
    requires i < |tables| && SinglesTaken(rest, tables, i)
    requires forall c <- left :: c in rest && !IsSingleTableCond(c, tables[i])
    ensures SinglesTaken(left, tables, i + 1)
  {
  }

  /** The first occurrence of a source has taken its conditions. */
  lemma NoSinglesAgain(rest: seq<Cond>, tables: seq<string>, i: nat, single: seq<Cond>)
    requires i < |tables| && SinglesTaken(rest, tables, i)
    requires forall c <- single :: c in rest && IsSingleTableCond(c, tables[i])
    ensures tables[i] in tables[..i] ==> single == []
  {
    if tables[i] in tables[..i] {
      var j: nat :| j < i && tables[j] == tables[i];
      assert forall c <- single :: !IsSingleTableCond(c, tables[j]);
      SomeMember(single);
    }
  }

  /** Two sources that are both joined already have met. */
  lemma NoJoinsAgain(rest: seq<Cond>, tables: seq<string>, i: nat, joinConds: seq<Cond>)
    requires i < |tables| && Pending(rest, tables, i)
    requires forall c <- joinConds :: c in rest && IsJoinCond(c, tables[..i], tables[i])
    ensures tables[i] in tables[..i] ==> joinConds == []
  {
    if tables[i] in tables[..i] {
      assert forall c :: IsJoinCond(c, tables[..i], tables[i]) ==> Mentions(c, Tabs(tables[..i]));
      SomeMember(joinConds);
    }
  }

  /** After i rounds of the first loop. */
  ghost predicate Taking(tables: seq<string>, i: nat, conds: seq<Cond>, singles: seq<seq<Cond>>, rest: seq<Cond>)
  {
    && |singles| == i <= |tables|
    && (forall j: nat, c | j < i && c in singles[j] :: IsSingleTableCond(c, tables[j]))
    && (forall j: nat | j < i :: tables[j] in tables[..j] ==> singles[j] == [])
    && SinglesTaken(rest, tables, i) && (forall c <- rest :: c in conds)
    && multiset(Flat(singles)) + multiset(rest) == multiset(conds)
  }

  lemma SingleTaken(tables: seq<string>, i: nat, conds: seq<Cond>, singles: seq<seq<Cond>>, rest: seq<Cond>,
                    single: seq<Cond>, left: seq<Cond>)
    requires Taking(tables, i, conds, singles, rest) && i < |tables|
    requires multiset(single) + multiset(left) == multiset(rest)
    requires forall c <- single :: c in rest && IsSingleTableCond(c, tables[i])
    requires forall c <- left :: c in rest && !IsSingleTableCond(c, tables[i])
    ensures Taking(tables, i + 1, conds, singles + [single], left)
  {
    NoSinglesAgain(rest, tables, i, single);
    FlatConcat(singles, single);
    BagMoved(Flat(singles), single, left, rest, conds);
    SinglesStep(rest, left, tables, i);
  }

  /** The first loop of make_one_rel: each source gets its own conditions. */
  method TakeSingles(tables: seq<string>, conds: seq<Cond>) returns (singles: seq<seq<Cond>>, rest: seq<Cond>)
    ensures Owned(singles, tables) && OnlyFirsts(singles, tables)
    ensures SinglesTaken(rest, tables, |tables|) && forall c <- rest :: c in conds
    ensures multiset(Flat(singles)) + multiset(rest) == multiset(conds)
  {
    singles, rest := [], conds;
    for i := 0 to |tables|
      invariant Taking(tables, i, conds, singles, rest)
    {
      var tab := tables[i];
      var single, left := Take(rest, c => IsSingleTableCond(c, tab));
      SingleTaken(tables, i, conds, singles, rest, single, left);
      singles, rest := singles + [single], left;
    }
  }

  // ---------- make_one_rel ----------

  /** Where both planning loops stand after i sources: every condition is placed, still to be placed with a
      later source, or waits in rest. */
  ghost predicate Progress(tables: seq<string>, i: nat, conds: seq<Cond>, singles: seq<seq<Cond>>, rest: seq<Cond>,
                           taken: seq<Cond>)
  {
    && 1 <= i <= |tables| == |singles|
    && (forall c <- taken :: Mentions(c, Tabs(tables[..i])))
    && Pending(rest, tables, i) && SinglesTaken(rest, tables, |tables|) && (forall c <- rest :: c in conds)
    && multiset(taken) + multiset(Flat(singles[i..])) + multiset(rest) == multiset(conds)
  }

  ghost predicate Owned(singles: seq<seq<Cond>>, tables: seq<string>)
  {
    && |singles| == |tables|
    && (forall i: nat, c | i < |tables| && c in singles[i] :: IsSingleTableCond(c, tables[i]))
  }

  /** Only the first occurrence of a source has conditions. */
  ghost predicate OnlyFirsts(singles: seq<seq<Cond>>, tables: seq<string>)
  {
    |singles| == |tables| && forall i: nat | i < |tables| :: tables[i] in tables[..i] ==> singles[i] == []
  }

  lemma ProgressFirst(tables: seq<string>, conds: seq<Cond>, singles: seq<seq<Cond>>, rest: seq<Cond>)
    requires tables != [] && Owned(singles, tables)
    requires SinglesTaken(rest, tables, |tables|) && forall c <- rest :: c in conds
    requires multiset(Flat(singles)) + multiset(rest) == multiset(conds)
    ensures Progress(tables, 1, conds, singles, rest, singles[0])
  {
    PendingFirst(rest, tables);
    assert tables[..1] == [tables[0]];
    assert Flat(singles) == singles[0] + Flat(singles[1..]);
  }

  lemma ProgressStep(tables: seq<string>, i: nat, conds: seq<Cond>, singles: seq<seq<Cond>>, rest: seq<Cond>,
                     taken: seq<Cond>, joinConds: seq<Cond>, left: seq<Cond>)
    requires Progress(tables, i, conds, singles, rest, taken) && i < |tables| && Owned(singles, tables)
    requires multiset(joinConds) + multiset(left) == multiset(rest)
    requires forall c <- joinConds :: IsJoinCond(c, tables[..i], tables[i])
    requires forall c <- left :: c in rest && !IsJoinCond(c, tables[..i], tables[i])
    ensures Progress(tables, i + 1, conds, singles, left, taken + singles[i] + joinConds)
  {
    PendingStep(rest, left, tables, i);
    assert tables[..i + 1] == tables[..i] + [tables[i]];
    forall c <- taken + singles[i] + joinConds ensures Mentions(c, Tabs(tables[..i + 1]))
    {
    }
    assert singles[i..][1..] == singles[i + 1..];
    BagsStep(taken, singles[i], Flat(singles[i + 1..]), joinConds, left, rest, conds);
  }

  lemma BagsStep(taken: seq<Cond>, single: seq<Cond>, later: seq<Cond>, joinConds: seq<Cond>, left: seq<Cond>,
                 rest: seq<Cond>, conds: seq<Cond>)
    requires multiset(taken) + multiset(single + later) + multiset(rest) == multiset(conds)
    requires multiset(joinConds) + multiset(left) == multiset(rest)
    ensures multiset(taken + single + joinConds) + multiset(later) + multiset(left) == multiset(conds)
  {
  }

  lemma ProgressDone(tables: seq<string>, conds: seq<Cond>, singles: seq<seq<Cond>>, rest: seq<Cond>, taken: seq<Cond>)
    requires Progress(tables, |tables|, conds, singles, rest, taken) && forall c <- conds :: Mentions(c, Tabs(tables))
    ensures rest == [] && multiset(taken) == multiset(conds)
  {
    NothingLeft(rest, tables);
    assert Flat(singles[|tables|..]) == [];
  }

  /** The plan built so far means its sources filtered by exactly the conditions placed in it. */
  ghost predicate Covers(root: Plan, tables: seq<string>, taken: seq<Cond>)
    requires tables != []
  {
    Means(root, tables, map[], taken, EVERY_COLUMN) && Placed(root) == multiset(taken)
  }

  /** Over any sources the plan's rows are the cross product filtered by all conditions. */
  ghost predicate Yields(root: Plan, tables: seq<string>, conds: seq<Cond>)
    requires tables != []
  {
    forall acc {:trigger Eval(root, acc, Unbound)} :: OwnColumns(acc) ==>
      Eval(root, acc, Unbound) == FilterRows(CrossAll(tables, acc), conds)
  }

  /** Whatever the indexes, the plan yields exactly the rows of the cross product that satisfy every condition,
      in left-major order, and each condition is placed exactly once. */
  method MakeOneRel(tables: seq<string>, conds: seq<Cond>, derived: set<string>, indexed: set<Col>)
    returns (plan: Option<Plan>)
    requires forall c <- conds :: Mentions(c, Tabs(tables))
    ensures plan == None <==> tables == []
    ensures plan.Some? ==> Yields(plan.value, tables, conds) && Placed(plan.value) == multiset(conds)
  {
    if tables == [] {
      return None;
    }
    var singles, rest := TakeSingles(tables, conds);
    var root := BuildSourceScanPlan(tables[0] in derived, tables[0], singles[0], NoKey);
    FirstSource(root, tables[0], map[], singles[0], EVERY_COLUMN);
    ProgressFirst(tables, conds, singles, rest);
    assert tables[..1] == [tables[0]];
    ghost var taken := singles[0];
    var i := 1;
    while i < |tables|
      invariant Progress(tables, i, conds, singles, rest, taken)
      invariant Covers(root, tables[..i], taken)
    {
      var joinConds, left := Take(rest, c => IsJoinCond(c, tables[..i], tables[i]));
      NoJoinsAgain(rest, tables, i, joinConds);
      ProgressStep(tables, i, conds, singles, rest, taken, joinConds, left);
      root := JoinNext(root, tables, i, singles[i], joinConds, tables[i] in derived, indexed, taken);
      rest, taken := left, taken + singles[i] + joinConds;
      i := i + 1;
    }
    assert tables[..i] == tables;
    // push_conds has nothing to do
    ProgressDone(tables, conds, singles, rest, taken);
    ExactMeaning(root, tables, taken, conds);
    plan := Some(root);
  }

  lemma ExactMeaning(root: Plan, tables: seq<string>, taken: seq<Cond>, conds: seq<Cond>)
    requires tables != [] && Covers(root, tables, taken) && multiset(taken) == multiset(conds)
    ensures Yields(root, tables, conds) && Placed(root) == multiset(conds)
  {
    SameBagSameMembers(taken, conds);
    MeansSameConds(root, tables, map[], taken, conds, EVERY_COLUMN);
    forall acc | OwnColumns(acc) ensures Eval(root, acc, Unbound) == FilterRows(CrossAll(tables, acc), conds)
    {
      ThinnedBare(tables, acc);
      AgreeEverywhere(Eval(root, acc, Unbound), FilterRows(CrossAll(tables, acc), conds));
    }
  }

  /** One round of make_one_rel's loop: the inner scan may be an index scan bound to each outer row. */
  method JoinNext(root: Plan, tables: seq<string>, i: nat, single: seq<Cond>, joinConds: seq<Cond>, isDerived: bool,
                  indexed: set<Col>, ghost taken: seq<Cond>) returns (root': Plan)
    requires 1 <= i < |tables| && Covers(root, tables[..i], taken)
    requires tables[i] in tables[..i] ==> single == [] && joinConds == []
    requires (forall c <- taken :: Mentions(c, Tabs(tables[..i])))
             && (forall c <- single :: IsSingleTableCond(c, tables[i]))
    ensures Covers(root', tables[..i + 1], taken + single + joinConds)
    ensures root'.Join? && root'.left == root && root'.conds == joinConds
    ensures KeyChosen(KeyOf(root'.right), joinConds, tables[i], tables[..i], isDerived, indexed)
  {
    var key := NoKey;
    if !isDerived {
      key := ChooseInljKey(tables[i], tables[..i], joinConds, indexed);
    }
    var right := BuildSourceScanPlan(isDerived, tables[i], single, key);
    OneMoreSource(root, right, tables, i, map[], taken, single, key, joinConds, EVERY_COLUMN);
    root' := Join(root, right, joinConds);
  }

  /** Index scans may yield rows in another order than the table: as a bag the result is the same. */
  lemma AnyScanOrder(root: Plan, tables: seq<string>, conds: seq<Cond>, acc: Access, acc': Access)
    requires tables != [] && Yields(root, tables, conds) && OwnColumns(acc') && Reordered(acc, acc')
    ensures multiset(Eval(root, acc', Unbound)) == multiset(FilterRows(CrossAll(tables, acc), conds))
  {
    MeaningPermutes(tables, acc, acc', conds);
  }
}
