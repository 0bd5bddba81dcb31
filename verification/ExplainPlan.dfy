/** generate_explain_plan: filters and projections pushed below the joins. */
module ExplainPlan {
  import opened Common
  import opened Relational
  import opened Plans
  import opened Planner
  import opened RepeatedSources

  predicate MentionsCol(d: Cond, c: Col)
  {
    d.lhs == c || d.rhs == ColRef(c)
  }

  /** The columns that the output or a condition not yet checked still needs. */
  ghost function NeedOf(cols: seq<Col>, conds: seq<Cond>): iset<Col>
  {
    iset c: Col | c in cols || exists d <- conds :: MentionsCol(d, c)
  }

  lemma NeedShrinks(cols: seq<Col>, conds: seq<Cond>, conds': seq<Cond>)
    requires forall d <- conds' :: d in conds
    ensures NeedOf(cols, conds') <= NeedOf(cols, conds) && Needs(conds', NeedOf(cols, conds))
  {
    forall d <- conds' ensures d.lhs in NeedOf(cols, conds) && (d.rhs.ColRef? ==> d.rhs.c in NeedOf(cols, conds))
    {
      assert MentionsCol(d, d.lhs);
      assert d.rhs.ColRef? ==> MentionsCol(d, d.rhs.c);
    }
  }

  // ---------- single-source conditions, by name ----------

  /** The conditions over one source. */
  function Own(conds: seq<Cond>, tab: string): seq<Cond>
  {
    if conds == [] then []
    else
      var last := conds[|conds| - 1];
      var r := Own(conds[..|conds| - 1], tab);
      if IsSingleTableCond(last, tab) then r + [last] else r
  }

  function OwnMap(tables: seq<string>, conds: seq<Cond>): map<string, seq<Cond>>
  {
    map tab | tab in tables :: Own(conds, tab)
  }

  predicate IsOther(c: Cond, tabs: set<string>)
  {
    !(c.lhs.tab in tabs && IsSingleTableCond(c, c.lhs.tab))
  }

  /** The conditions that are not over one of the given sources alone. */
  function Others(conds: seq<Cond>, tabs: set<string>): seq<Cond>
  {
    if conds == [] then []
    else
      var last := conds[|conds| - 1];
      var r := Others(conds[..|conds| - 1], tabs);
      if IsOther(last, tabs) then r + [last] else r
  }

  /** The single-source conditions, each once for every occurrence of its source. */
  function OwnEach(tables: seq<string>, conds: seq<Cond>): seq<Cond>
  {
    if tables == [] then [] else Own(conds, tables[0]) + OwnEach(tables[1..], conds)
  }

  lemma {:induction false} OwnMembers(conds: seq<Cond>, tab: string)
    ensures forall c :: c in Own(conds, tab) <==> c in conds && IsSingleTableCond(c, tab)
  {
    if conds != [] {
      OwnMembers(conds[..|conds| - 1], tab);
      assert conds == conds[..|conds| - 1] + [conds[|conds| - 1]];
    }
  }

  lemma {:induction false} OthersMembers(conds: seq<Cond>, tabs: set<string>)
    ensures forall c :: c in Others(conds, tabs) <==> c in conds && IsOther(c, tabs)
  {
    if conds != [] {
      OthersMembers(conds[..|conds| - 1], tabs);
      assert conds == conds[..|conds| - 1] + [conds[|conds| - 1]];
    }
  }

  lemma OneMoreName(c: Cond, tabs: set<string>, tab: string)
    requires tab !in tabs
    ensures IsOther(c, tabs + {tab}) <==> IsOther(c, tabs) && !IsSingleTableCond(c, tab)
    ensures IsSingleTableCond(c, tab) ==> IsOther(c, tabs)
  {
  }

  /** Popping a source's conditions from what other sources have left takes the same conditions in any order. */
  lemma {:induction false} PopOne(conds: seq<Cond>, tabs: set<string>, tab: string, p: Cond -> bool, q: Cond -> bool)
    requires tab !in tabs && (forall c :: p(c) == IsSingleTableCond(c, tab)) && forall c :: q(c) == !p(c)
    ensures Where(Others(conds, tabs), p) == Own(conds, tab)
    ensures Where(Others(conds, tabs), q) == Others(conds, tabs + {tab})
  {
    if conds != [] {
      var rest, last := conds[..|conds| - 1], conds[|conds| - 1];
      PopOne(rest, tabs, tab, p, q);
      OneMoreName(last, tabs, tab);
      if IsOther(last, tabs) {
        WhereLast(Others(rest, tabs), last, p);
        WhereLast(Others(rest, tabs), last, q);
      }
    }
  }

  lemma {:induction false} AllOthers(conds: seq<Cond>)
    ensures Others(conds, {}) == conds
  {
    if conds != [] {
      AllOthers(conds[..|conds| - 1]);
      assert conds == conds[..|conds| - 1] + [conds[|conds| - 1]];
    }
  }

  lemma {:induction false} WhereSame(conds: seq<Cond>, p: Cond -> bool, q: Cond -> bool)
    requires forall c :: p(c) == q(c)
    ensures Where(conds, p) == Where(conds, q)
  {
    if conds != [] { WhereSame(conds[..|conds| - 1], p, q); }
  }

  /** explain_pop_single_conds for each distinct source. The source sorts the names first; the result does not depend
      on their order. */
  method PopSingles(tables: seq<string>, conds: seq<Cond>) returns (own: map<string, seq<Cond>>, rest: seq<Cond>)
    ensures own == OwnMap(tables, conds) && rest == Others(conds, Tabs(tables))
  {
    own, rest := map[], conds;
    AllOthers(conds);
    assert own.Keys == {};
    for i := 0 to |tables|
      invariant own == OwnMap(tables[..i], conds) && rest == Others(conds, own.Keys)
    {
      var tab := tables[i];
      assert tables[..i + 1] == tables[..i] + [tab];
      if tab !in own {
        var single, left := PopSingle(rest, tab, conds, own.Keys);
        assert own.Keys + {tab} == own[tab := single].Keys;
        own, rest := own[tab := single], left;
      }
    }
    assert tables[..|tables|] == tables;
    assert own.Keys == Tabs(tables);
  }

  method PopSingle(rest: seq<Cond>, tab: string, ghost conds: seq<Cond>, ghost tabs: set<string>)
    returns (single: seq<Cond>, left: seq<Cond>)
    requires rest == Others(conds, tabs) && tab !in tabs
    ensures single == Own(conds, tab) && left == Others(conds, tabs + {tab})
  {
    var p := (c: Cond) => IsSingleTableCond(c, tab);
    ghost var q := (c: Cond) => !p(c);
    PopOne(conds, tabs, tab, p, q);
    single, left := Take(rest, p);
    WhereSame(rest, q, c => !p(c));
  }

  // ---------- needed columns ----------

  /** add_col */
  function AddCol(need: seq<Col>, c: Col, tab: string): seq<Col>
  {
    if c.tab != tab || c in need then need else need + [c]
  }

  /** need lists the columns of tab that cols or conds mention. */
  ghost predicate Gathered(need: seq<Col>, cols: seq<Col>, conds: seq<Cond>, tab: string)
  {
    forall c :: c in need <==> c.tab == tab && (c in cols || exists d <- conds :: MentionsCol(d, c))
  }

  lemma AddBoth(need: seq<Col>, conds: seq<Cond>, i: nat, cols: seq<Col>, tab: string)
    requires i < |conds| && NoDuplicates(need) && Gathered(need, cols, conds[..i], tab)
    ensures var d, one := conds[i], AddCol(need, conds[i].lhs, tab);
            var both := if d.rhs.ColRef? then AddCol(one, d.rhs.c, tab) else one;
            NoDuplicates(both) && Gathered(both, cols, conds[..i + 1], tab)
  {
    var d, one := conds[i], AddCol(need, conds[i].lhs, tab);
    var both := if d.rhs.ColRef? then AddCol(one, d.rhs.c, tab) else one;
    assert conds[..i + 1] == conds[..i] + [d];
    forall c ensures c in both <==> c in need || (c.tab == tab && MentionsCol(d, c))
    {
    }
  }

  method NeededColumns(cols: seq<Col>, conds: seq<Cond>, tab: string) returns (need: seq<Col>)
    ensures NoDuplicates(need)
    ensures Gathered(need, cols, conds, tab)
  {
    need := [];
    for i := 0 to |cols|
      invariant NoDuplicates(need) && forall c :: c in need <==> c.tab == tab && c in cols[..i]
    {
      need := AddCol(need, cols[i], tab);
      assert cols[..i + 1] == cols[..i] + [cols[i]];
    }
    assert cols[..|cols|] == cols;
    for i := 0 to |conds|
      invariant NoDuplicates(need)
      invariant Gathered(need, cols, conds[..i], tab)
    {
      AddBoth(need, conds, i, cols, tab);
      need := AddCol(need, conds[i].lhs, tab);
      if conds[i].rhs.ColRef? {
        need := AddCol(need, conds[i].rhs.c, tab);
      }
    }
    assert conds[..|conds|] == conds;
  }

  // ---------- leaves ----------

  /** One occurrence of a source in the plan: its scan, above it its own conditions if it has any, and above these the
      columns that are still needed, if the plan projects and the source has such columns. */
  ghost predicate LeafShape(p: Plan, tab: string, single: seq<Cond>, need: iset<Col>, project: bool)
  {
    var q := if p.Project? then p.sub else p;
    var base := if q.Filter? then q.sub else q;
    && (base == Derived(tab) || (base.Scan? && base.tab == tab && base.conds == []))
    && (q.Filter? <==> single != []) && (q.Filter? ==> q.conds == single)
    && (p.Project? <==> project && exists c :: c in need && c.tab == tab)
    && (p.Project? ==> forall c :: c in p.cols <==> c in need && c.tab == tab)
  }

  lemma NeedGathered(keep: seq<Col>, cols: seq<Col>, conds: seq<Cond>, tab: string)
    requires Gathered(keep, cols, conds, tab)
    ensures forall c :: c in keep <==> c in NeedOf(cols, conds) && c.tab == tab
    ensures keep != [] <==> exists c :: c in NeedOf(cols, conds) && c.tab == tab
  {
    if keep != [] { assert keep[0] in keep; }
  }

  /** Scan, filter and projection of one source. */
  method ExplainLeaf(tab: string, isDerived: bool, key: Key, single: seq<Cond>, project: bool, cols: seq<Col>,
                     remaining: seq<Cond>)
    returns (leaf: Plan)
    requires isDerived ==> key.NoKey?
    ensures LeafMeans(leaf, tab, single, key, NeedOf(cols, remaining))
    ensures Placed(leaf) == multiset(single) && KeyOf(leaf) == key && forall acc :: KeysBound(leaf, acc)
    ensures LeafShape(leaf, tab, single, NeedOf(cols, remaining), project)
  {
    leaf := if isDerived then Derived(tab) else Scan(tab, [], key);
    assert Placed(leaf) == multiset{} && KeyOf(leaf) == key && forall acc :: KeysBound(leaf, acc);
    if single != [] {
      FilterKeeps(leaf, single);
      leaf := Filter(leaf, single);
    }
    assert Placed(leaf) == multiset(single);
    LeafBelow(leaf, tab, isDerived, key, single);
    ghost var need := NeedOf(cols, remaining);
    if project {
      var keep := NeededColumns(cols, remaining, tab);
      NeedGathered(keep, cols, remaining, tab);
      if keep != [] {
        ProjectMeans(leaf, tab, single, key, need, keep);
        leaf := Project(leaf, keep);
        return;
      }
    }
    LeafFewer(leaf, tab, single, key, need);
  }

  lemma FilterKeeps(leaf: Plan, conds: seq<Cond>)
    ensures Placed(Filter(leaf, conds)) == multiset(conds) + Placed(leaf) && KeyOf(Filter(leaf, conds)) == KeyOf(leaf)
    ensures forall acc :: KeysBound(Filter(leaf, conds), acc) == KeysBound(leaf, acc)
  {
  }

  lemma LeafBelow(leaf: Plan, tab: string, isDerived: bool, key: Key, single: seq<Cond>)
    requires isDerived ==> key.NoKey?
    requires var base := if isDerived then Derived(tab) else Scan(tab, [], key);
             leaf == if single != [] then Filter(base, single) else base
    ensures LeafMeans(leaf, tab, single, key, EVERY_COLUMN)
  {
    var base := if isDerived then Derived(tab) else Scan(tab, [], key);
    forall acc | OwnColumns(acc) ensures LeafFor(leaf, acc, tab, single, key, EVERY_COLUMN)
    {
      if isDerived {
        DerivedLeaf(acc, tab, EVERY_COLUMN);
      } else {
        ScanLeaf(acc, tab, [], key, EVERY_COLUMN);
      }
      FilterLeaf(base, acc, tab, single, key, EVERY_COLUMN);
    }
  }

  lemma ProjectMeans(leaf: Plan, tab: string, single: seq<Cond>, key: Key, need: iset<Col>, keep: seq<Col>)
    requires LeafMeans(leaf, tab, single, key, EVERY_COLUMN)
    requires forall c :: c in need && c.tab == tab ==> c in keep
    ensures LeafMeans(Project(leaf, keep), tab, single, key, need)
  {
    forall acc | OwnColumns(acc) ensures LeafFor(Project(leaf, keep), acc, tab, single, key, need)
    {
      ProjectLeaf(leaf, acc, tab, single, key, EVERY_COLUMN, need, keep);
    }
  }

  lemma LeafFewer(leaf: Plan, tab: string, single: seq<Cond>, key: Key, need: iset<Col>)
    requires LeafMeans(leaf, tab, single, key, EVERY_COLUMN)
    ensures LeafMeans(leaf, tab, single, key, need)
  {
    forall acc | OwnColumns(acc) ensures LeafFor(leaf, acc, tab, single, key, need)
    {
      assert LeafFor(leaf, acc, tab, single, key, EVERY_COLUMN);
      forall b | Ready(key, b)
        ensures Agree(Eval(leaf, acc, b), FilterRows(RowsOf(acc, tab), KeyConds(key, b) + single), need)
      {
        AgreeFewer(Eval(leaf, acc, b), FilterRows(RowsOf(acc, tab), KeyConds(key, b) + single), EVERY_COLUMN, need);
      }
    }
  }

  // ---------- bound keys ----------

  /** bind_join_key always finds the outer column in the left row. */
  ghost predicate KeysBound(plan: Plan, acc: Access)
  {
    match plan
    case Scan(_, _, _) => true
    case Derived(_) => true
    case Filter(sub, _) => KeysBound(sub, acc)
    case Project(sub, _) => KeysBound(sub, acc)
    case Join(left, right, _) =>
      && KeysBound(left, acc) && KeysBound(right, acc)
      && forall row <- Eval(left, acc, Unbound) :: Ready(KeyOf(right), Bound(row))
  }

  /** Every row has the columns that the conditions mention. */
  ghost predicate Complete(acc: Access, conds: seq<Cond>)
  {
    forall d <- conds, c, row | MentionsCol(d, c) && row in RowsOf(acc, c.tab) :: c in row
  }

  lemma PairsHave(ls: seq<Row>, rs: seq<Row>, c: Col)
    requires (forall l <- ls :: c in l) || (forall r <- rs :: c in r)
    ensures forall row <- CrossRows(ls, rs) :: c in row
  {
    forall row <- CrossRows(ls, rs) ensures c in row
    {
      CrossMembers(ls, rs, row);
    }
  }

  lemma {:induction false} CrossHas(tables: seq<string>, acc: Access, c: Col)
    requires tables != [] && c.tab in tables && forall row <- RowsOf(acc, c.tab) :: c in row
    ensures forall row <- CrossAll(tables, acc) :: c in row
  {
    var n := |tables|;
    if n > 1 {
      var prefix, last := tables[..n - 1], tables[n - 1];
      if c.tab != last {
        assert tables == prefix + [last];
        CrossHas(prefix, acc, c);
      }
      PairsHave(CrossAll(prefix, acc), RowsOf(acc, last), c);
    }
  }

  /** The outer column of a key survives every projection below the join. */
  lemma KeySurvives(root: Plan, acc: Access, tables: seq<string>, own: map<string, seq<Cond>>, taken: seq<Cond>,
                    need: iset<Col>, conds: seq<Cond>, key: Key)
    requires tables != [] && Means(root, tables, own, taken, need) && OwnColumns(acc) && Complete(acc, conds)
    requires key.Key? ==> key.outer in need && key.outer.tab in tables && exists d <- conds :: MentionsCol(d, key.outer)
    ensures forall row <- Eval(root, acc, Unbound) :: Ready(key, Bound(row))
  {
    if key.Key? {
      var rows, full := Eval(root, acc, Unbound), FilterRows(CrossThinned(tables, own, acc), taken);
      CrossHas(tables, acc, key.outer);
      FilterMembers(CrossThinned(tables, own, acc), taken);
      assert Agree(rows, full, need);
      forall i | 0 <= i < |rows| ensures key.outer in rows[i]
      {
        assert AgreeRow(rows[i], full[i], need) && full[i] in full;
        ThinnedWithin(tables, own, acc, full[i]);
      }
    }
  }

  // ---------- generate_explain_plan ----------

  ghost predicate AllKeysBound(plan: Plan, conds: seq<Cond>)
  {
    forall acc {:trigger KeysBound(plan, acc)} :: OwnColumns(acc) && Complete(acc, conds) ==> KeysBound(plan, acc)
  }

  lemma KeysBoundNext(root: Plan, leaf: Plan, key: Key, joinConds: seq<Cond>, tables: seq<string>,
                      own: map<string, seq<Cond>>, taken: seq<Cond>, need: iset<Col>, tab: string, conds: seq<Cond>)
    requires tables != [] && Means(root, tables, own, taken, need)
    requires AllKeysBound(root, conds) && AllKeysBound(leaf, conds)
    requires KeyOf(leaf) == key && KeyFrom(key, joinConds, tab, Tabs(tables)) && Needs(joinConds, need)
    requires forall d <- joinConds :: d in conds
    ensures AllKeysBound(Join(root, leaf, joinConds), conds)
  {
    if key.Key? {
      var d := if Cond(key.inner, EQ, ColRef(key.outer)) in joinConds then Cond(key.inner, EQ, ColRef(key.outer))
               else Cond(key.outer, EQ, ColRef(key.inner));
      assert d in conds && MentionsCol(d, key.outer);
    }
    forall acc | OwnColumns(acc) && Complete(acc, conds) ensures KeysBound(Join(root, leaf, joinConds), acc)
    {
      KeySurvives(root, acc, tables, own, taken, need, conds, key);
      assert KeysBound(root, acc) && KeysBound(leaf, acc);
    }
  }

  /** The plan built so far covers these sources and conditions, in all columns still needed. */
  ghost predicate Standing(root: Plan, tables: seq<string>, own: map<string, seq<Cond>>, taken: seq<Cond>,
                           cols: seq<Col>, rest: seq<Cond>, conds: seq<Cond>)
    requires tables != []
  {
    && Means(root, tables, own, taken, NeedOf(cols, rest))
    && Placed(root) == multiset(taken)
    && AllKeysBound(root, conds)
  }

  /** One round of the loop: the next leaf, joined on the conditions that have become checkable. */
  method ExplainNext(root: Plan, tables: seq<string>, i: nat, single: seq<Cond>, joinConds: seq<Cond>,
                     isDerived: bool, indexed: set<Col>, project: bool, cols: seq<Col>, remaining: seq<Cond>,
                     ghost own: map<string, seq<Cond>>, ghost taken: seq<Cond>, ghost conds: seq<Cond>,
                     ghost left: seq<Cond>)
    returns (root': Plan)
    requires 1 <= i < |tables| && Standing(root, tables[..i], own, taken, cols, remaining, conds)
    requires AgainOk(tables[..i], tables[i], own, taken, single, joinConds)
    requires forall c <- taken :: Mentions(c, Tabs(tables[..i]))
    requires forall c <- single :: IsSingleTableCond(c, tables[i])
    requires (forall c <- joinConds :: c in remaining) && (forall c <- left :: c in remaining)
    requires forall c <- remaining :: c in conds
    ensures Standing(root', tables[..i + 1], own, taken + single + joinConds, cols, left, conds)
    ensures root'.Join? && root'.left == root && root'.conds == joinConds
    ensures KeyChosen(KeyOf(root'.right), joinConds, tables[i], tables[..i], isDerived, indexed)
    ensures LeafShape(root'.right, tables[i], single, NeedOf(cols, remaining), project)
  {
    var key := NoKey;
    if !isDerived {
      key := ChooseInljKey(tables[i], tables[..i], joinConds, indexed);
    }
    var leaf := ExplainLeaf(tables[i], isDerived, key, single, project, cols, remaining);
    ghost var need := NeedOf(cols, remaining);
    NeedShrinks(cols, remaining, joinConds);
    OneMoreSource(root, leaf, tables, i, own, taken, single, key, joinConds, need);
    KeysBoundNext(root, leaf, key, joinConds, tables[..i], own, taken, need, tables[i], conds);
    root' := Join(root, leaf, joinConds);
    NeedShrinks(cols, remaining, left);
    MeansFewer(root', tables[..i + 1], own, taken + single + joinConds, need, NeedOf(cols, left));
  }

  /** Over any sources the plan's rows are the selected columns of the rows that satisfy all conditions, in the product
      whose later occurrences of a source are filtered by that source's own conditions. */
  ghost predicate YieldsColumns(plan: Plan, tables: seq<string>, conds: seq<Cond>, cols: seq<Col>)
    requires tables != []
  {
    forall acc {:trigger Eval(plan, acc, Unbound)} :: OwnColumns(acc) ==>
      Eval(plan, acc, Unbound) ==
        ProjectRows(FilterRows(CrossThinned(tables, OwnMap(tables, conds), acc), conds), cols)
  }

  lemma ProjectMeaning(root: Plan, tables: seq<string>, conds: seq<Cond>, cols: seq<Col>, need: iset<Col>)
    requires tables != [] && Means(root, tables, OwnMap(tables, conds), conds, need) && forall c <- cols :: c in need
    ensures YieldsColumns(Project(root, cols), tables, conds, cols)
  {
    var own := OwnMap(tables, conds);
    forall acc | OwnColumns(acc)
      ensures Eval(Project(root, cols), acc, Unbound) ==
                ProjectRows(FilterRows(CrossThinned(tables, own, acc), conds), cols)
    {
      ProjectAgree(Eval(root, acc, Unbound), FilterRows(CrossThinned(tables, own, acc), conds), cols, need);
    }
  }

  /** Rows that agree in the needed columns have the same selected columns. */
  lemma ProjectAgree(rows: seq<Row>, full: seq<Row>, cols: seq<Col>, need: iset<Col>)
    requires Agree(rows, full, need) && forall c <- cols :: c in need
    ensures ProjectRows(rows, cols) == ProjectRows(full, cols)
  {
    forall k | 0 <= k < |rows| ensures ProjectRow(rows[k], cols) == ProjectRow(full[k], cols) {
      assert AgreeRow(rows[k], full[k], need);
    }
  }

  lemma FinalProjection(root: Plan, tables: seq<string>, taken: seq<Cond>, cols: seq<Col>, rest: seq<Cond>,
                        conds: seq<Cond>)
    requires tables != [] && Standing(root, tables, OwnMap(tables, conds), taken, cols, rest, conds)
    requires forall c :: c in taken <==> c in conds
    ensures YieldsColumns(Project(root, cols), tables, conds, cols)
    ensures Placed(Project(root, cols)) == multiset(taken) && AllKeysBound(Project(root, cols), conds)
  {
    MeansSameConds(root, tables, OwnMap(tables, conds), taken, conds, NeedOf(cols, rest));
    ProjectMeaning(root, tables, conds, cols, NeedOf(cols, rest));
  }

  // ---------- the conditions of each occurrence ----------

  /** The single-source conditions of each occurrence. */
  function SinglesOf(tables: seq<string>, conds: seq<Cond>): (r: seq<seq<Cond>>)
    ensures |r| == |tables| && forall i :: 0 <= i < |tables| ==> r[i] == Own(conds, tables[i])
  {
    if tables == [] then [] else [Own(conds, tables[0])] + SinglesOf(tables[1..], conds)
  }

  lemma {:induction false} FlatSingles(tables: seq<string>, conds: seq<Cond>)
    ensures Flat(SinglesOf(tables, conds)) == OwnEach(tables, conds)
  {
    if tables != [] {
      FlatSingles(tables[1..], conds);
      assert SinglesOf(tables, conds)[1..] == SinglesOf(tables[1..], conds);
    }
  }

  lemma {:induction false} OwnEachMembers(tables: seq<string>, conds: seq<Cond>, c: Cond)
    ensures c in OwnEach(tables, conds) <==> c in conds && c.lhs.tab in tables && IsSingleTableCond(c, c.lhs.tab)
  {
    if tables != [] {
      OwnEachMembers(tables[1..], conds, c);
      OwnMembers(conds, tables[0]);
      assert c.lhs.tab in tables <==> c.lhs.tab == tables[0] || c.lhs.tab in tables[1..];
    }
  }

  /** What an EXPLAIN plan checks: the join conditions once, and each single-source condition once for every occurrence
      of its source. */
  function Checked(tables: seq<string>, conds: seq<Cond>): seq<Cond>
  {
    OwnEach(tables, conds) + Others(conds, Tabs(tables))
  }

  lemma CheckedMembers(tables: seq<string>, conds: seq<Cond>)
    ensures forall c :: c in Checked(tables, conds) <==> c in conds
  {
    OthersMembers(conds, Tabs(tables));
    forall c ensures c in Checked(tables, conds) <==> c in conds { OwnEachMembers(tables, conds, c); }
  }

  lemma StartOfRun(tables: seq<string>, conds: seq<Cond>)
    requires tables != []
    ensures var singles, rest := SinglesOf(tables, conds), Others(conds, Tabs(tables));
            Owned(singles, tables) && Progress(tables, 1, Checked(tables, conds), singles, rest, singles[0])
  {
    var singles, rest := SinglesOf(tables, conds), Others(conds, Tabs(tables));
    forall i: nat, c | i < |tables| && c in singles[i] ensures IsSingleTableCond(c, tables[i]) {
      OwnMembers(conds, tables[i]);
    }
    OthersMembers(conds, Tabs(tables));
    FlatSingles(tables, conds);
    ProgressFirst(tables, Checked(tables, conds), singles, rest);
  }

  lemma AgainReady(tables: seq<string>, conds: seq<Cond>, i: nat, taken: seq<Cond>, joinConds: seq<Cond>)
    requires i < |tables| && (tables[i] in tables[..i] ==> joinConds == [])
    requires forall j: nat, c | j < i && c in Own(conds, tables[j]) :: c in taken
    ensures AgainOk(tables[..i], tables[i], OwnMap(tables, conds), taken, Own(conds, tables[i]), joinConds)
  {
    if tables[i] in tables[..i] {
      var j: nat :| j < i && tables[j] == tables[i];
    }
  }

  // ---------- the shape of the plan ----------

  /** The conditions between sources that the first n ones do not decide. */
  ghost predicate StillOpen(rest: seq<Cond>, tables: seq<string>, n: nat, conds: seq<Cond>)
    requires n <= |tables|
  {
    forall c :: c in rest <==> c in conds && IsOther(c, Tabs(tables)) && !Mentions(c, Tabs(tables[..n]))
  }

  /** The join of the n-th source checks the conditions that it is the first to decide. */
  ghost predicate DecidedAt(joinConds: seq<Cond>, tables: seq<string>, n: nat, conds: seq<Cond>)
    requires 1 <= n <= |tables|
  {
    forall c :: c in joinConds <==>
      && c in conds && IsOther(c, Tabs(tables)) && Mentions(c, Tabs(tables[..n]))
      && !Mentions(c, Tabs(tables[..n - 1]))
  }

  /** The sources are joined from left to right. Each one is filtered by its own conditions and cut down to the columns
      that the output or a condition still open needs before it is joined, and each join checks what it can. */
  ghost predicate TreeShape(root: Plan, tables: seq<string>, n: nat, conds: seq<Cond>, cols: seq<Col>, project: bool)
    requires 1 <= n <= |tables|
  {
    if n == 1 then LeafAt(root, tables, 0, conds, cols, project)
    else
      && root.Join? && TreeShape(root.left, tables, n - 1, conds, cols, project)
      && LeafAt(root.right, tables, n - 1, conds, cols, project) && DecidedAt(root.conds, tables, n, conds)
  }

  ghost predicate LeafAt(leaf: Plan, tables: seq<string>, i: nat, conds: seq<Cond>, cols: seq<Col>, project: bool)
    requires i < |tables|
  {
    exists rest :: StillOpen(rest, tables, i, conds) &&
      LeafShape(leaf, tables[i], Own(conds, tables[i]), NeedOf(cols, rest), project)
  }

  lemma OpenAtStart(tables: seq<string>, conds: seq<Cond>)
    requires tables != []
    ensures StillOpen(Others(conds, Tabs(tables)), tables, 0, conds)
    ensures StillOpen(Others(conds, Tabs(tables)), tables, 1, conds)
  {
    OthersMembers(conds, Tabs(tables));
    assert tables[..1] == [tables[0]] && tables[0] in tables;
  }

  lemma OpenAtNext(rest: seq<Cond>, tables: seq<string>, i: nat, conds: seq<Cond>, joinConds: seq<Cond>,
                   left: seq<Cond>)
    requires 1 <= i < |tables| && StillOpen(rest, tables, i, conds)
    requires forall c :: c in joinConds <==> c in rest && IsJoinCond(c, tables[..i], tables[i])
    requires forall c :: c in left <==> c in rest && !IsJoinCond(c, tables[..i], tables[i])
    ensures StillOpen(left, tables, i + 1, conds) && DecidedAt(joinConds, tables, i + 1, conds)
  {
    var now, more := Tabs(tables[..i]), Tabs(tables[..i + 1]);
    assert tables[..i + 1] == tables[..i] + [tables[i]];
    assert more == now + {tables[i]} && tables[i] in Tabs(tables);
    forall c | c in rest ensures IsJoinCond(c, tables[..i], tables[i]) <==> Mentions(c, more) {}
  }

  lemma TakenMembers(rest: seq<Cond>, joinConds: seq<Cond>, left: seq<Cond>, joined: seq<string>, right: string)
    requires multiset(joinConds) + multiset(left) == multiset(rest)
    requires forall c <- joinConds :: IsJoinCond(c, joined, right)
    requires forall c <- left :: !IsJoinCond(c, joined, right)
    ensures forall c :: c in joinConds <==> c in rest && IsJoinCond(c, joined, right)
    ensures forall c :: c in left <==> c in rest && !IsJoinCond(c, joined, right)
  {
    forall c ensures c in rest <==> c in joinConds || c in left {
      assert multiset(rest)[c] == multiset(joinConds)[c] + multiset(left)[c];
    }
  }

  /** After i sources. */
  ghost predicate Built(root: Plan, tables: seq<string>, i: nat, conds: seq<Cond>, cols: seq<Col>, rest: seq<Cond>,
                        taken: seq<Cond>)
  {
    && Progress(tables, i, Checked(tables, conds), SinglesOf(tables, conds), rest, taken)
    && Standing(root, tables[..i], OwnMap(tables, conds), taken, cols, rest, conds)
    && (forall j: nat, c | j < i && c in Own(conds, tables[j]) :: c in taken)
  }

  lemma BuiltFirst(root: Plan, tables: seq<string>, conds: seq<Cond>, cols: seq<Col>, rest: seq<Cond>)
    requires tables != [] && rest == Others(conds, Tabs(tables)) && AllKeysBound(root, conds)
    requires Means(root, [tables[0]], OwnMap(tables, conds), Own(conds, tables[0]), NeedOf(cols, rest))
    requires Placed(root) == multiset(Own(conds, tables[0]))
    ensures Built(root, tables, 1, conds, cols, rest, Own(conds, tables[0]))
  {
    StartOfRun(tables, conds);
    assert tables[..1] == [tables[0]];
  }

  /** The next round can go on. */
  lemma BuiltNext(root: Plan, tables: seq<string>, i: nat, conds: seq<Cond>, cols: seq<Col>, rest: seq<Cond>,
                  taken: seq<Cond>, joinConds: seq<Cond>, left: seq<Cond>)
    requires Built(root, tables, i, conds, cols, rest, taken) && i < |tables|
    requires multiset(joinConds) + multiset(left) == multiset(rest)
    requires forall c <- joinConds :: c in rest && IsJoinCond(c, tables[..i], tables[i])
    requires forall c <- left :: c in rest && !IsJoinCond(c, tables[..i], tables[i])
    ensures var single, all := Own(conds, tables[i]), Checked(tables, conds);
            && AgainOk(tables[..i], tables[i], OwnMap(tables, conds), taken, single, joinConds)
            && (forall c <- single :: IsSingleTableCond(c, tables[i])) && (forall c <- rest :: c in conds)
            && Progress(tables, i + 1, all, SinglesOf(tables, conds), left, taken + single + joinConds)
  {
    StartOfRun(tables, conds);
    CheckedMembers(tables, conds);
    NoJoinsAgain(rest, tables, i, joinConds);
    AgainReady(tables, conds, i, taken, joinConds);
    ProgressStep(tables, i, Checked(tables, conds), SinglesOf(tables, conds), rest, taken, joinConds, left);
  }

  lemma BuiltDone(root: Plan, tables: seq<string>, conds: seq<Cond>, cols: seq<Col>, rest: seq<Cond>, taken: seq<Cond>)
    requires tables != [] && Built(root, tables, |tables|, conds, cols, rest, taken)
    requires forall c <- conds :: Mentions(c, Tabs(tables))
    ensures YieldsColumns(Project(root, cols), tables, conds, cols)
    ensures Placed(Project(root, cols)) == multiset(Checked(tables, conds)) && AllKeysBound(Project(root, cols), conds)
  {
    assert tables[..|tables|] == tables;
    CheckedMembers(tables, conds);
    ProgressDone(tables, Checked(tables, conds), SinglesOf(tables, conds), rest, taken);
    SameBagSameMembers(taken, Checked(tables, conds));
    FinalProjection(root, tables, taken, cols, rest, conds);
  }

  ghost predicate Shaped(root: Plan, tables: seq<string>, i: nat, conds: seq<Cond>, cols: seq<Col>, rest: seq<Cond>,
                         project: bool)
    requires 1 <= i <= |tables|
  {
    StillOpen(rest, tables, i, conds) && TreeShape(root, tables, i, conds, cols, project)
  }

  lemma ShapedNext(root: Plan, tables: seq<string>, i: nat, conds: seq<Cond>, cols: seq<Col>, rest: seq<Cond>,
                   project: bool, joinConds: seq<Cond>, left: seq<Cond>, leaf: Plan)
    requires 1 <= i < |tables| && Shaped(root, tables, i, conds, cols, rest, project)
    requires multiset(joinConds) + multiset(left) == multiset(rest)
    requires forall c <- joinConds :: IsJoinCond(c, tables[..i], tables[i])
    requires forall c <- left :: !IsJoinCond(c, tables[..i], tables[i])
    requires LeafShape(leaf, tables[i], Own(conds, tables[i]), NeedOf(cols, rest), project)
    ensures Shaped(Join(root, leaf, joinConds), tables, i + 1, conds, cols, left, project)
  {
    TakenMembers(rest, joinConds, left, tables[..i], tables[i]);
    OpenAtNext(rest, tables, i, conds, joinConds, left);
    assert LeafAt(leaf, tables, i, conds, cols, project);
  }

  /** One round of the loop. */
  method ExplainRound(root: Plan, tables: seq<string>, i: nat, own: map<string, seq<Cond>>, rest: seq<Cond>,
                      derived: set<string>, indexed: set<Col>, project: bool, cols: seq<Col>, ghost taken: seq<Cond>,
                      ghost conds: seq<Cond>)
    returns (root': Plan, left: seq<Cond>, ghost taken': seq<Cond>)
    requires 1 <= i < |tables| && own == OwnMap(tables, conds) && Built(root, tables, i, conds, cols, rest, taken)
    requires Shaped(root, tables, i, conds, cols, rest, project)
    ensures Built(root', tables, i + 1, conds, cols, left, taken')
    ensures Shaped(root', tables, i + 1, conds, cols, left, project)
  {
    var joinConds;
    joinConds, left := Take(rest, c => IsJoinCond(c, tables[..i], tables[i]));
    BuiltNext(root, tables, i, conds, cols, rest, taken, joinConds, left);
    root' := ExplainNext(root, tables, i, own[tables[i]], joinConds, tables[i] in derived, indexed, project, cols, rest,
                         own, taken, conds, left);
    ShapedNext(root, tables, i, conds, cols, rest, project, joinConds, left, root'.right);
    taken' := taken + own[tables[i]] + joinConds;
  }

  lemma ShapedFirst(root: Plan, tables: seq<string>, conds: seq<Cond>, cols: seq<Col>, rest: seq<Cond>, project: bool)
    requires tables != [] && rest == Others(conds, Tabs(tables))
    requires LeafShape(root, tables[0], Own(conds, tables[0]), NeedOf(cols, rest), project)
    ensures Shaped(root, tables, 1, conds, cols, rest, project)
  {
    OpenAtStart(tables, conds);
    assert LeafAt(root, tables, 0, conds, cols, project);
  }

  /** The loop over the sources behind the first; push_conds then has nothing to do. */
  method ExplainJoins(first: Plan, tables: seq<string>, own: map<string, seq<Cond>>, open: seq<Cond>,
                      derived: set<string>, indexed: set<Col>, project: bool, cols: seq<Col>, ghost checked: seq<Cond>,
                      ghost conds: seq<Cond>)
    returns (root: Plan)
    requires tables != [] && own == OwnMap(tables, conds) && Built(first, tables, 1, conds, cols, open, checked)
    requires Shaped(first, tables, 1, conds, cols, open, project) && forall c <- conds :: Mentions(c, Tabs(tables))
    ensures YieldsColumns(Project(root, cols), tables, conds, cols)
    ensures Placed(Project(root, cols)) == multiset(Checked(tables, conds)) && AllKeysBound(Project(root, cols), conds)
    ensures TreeShape(root, tables, |tables|, conds, cols, project)
  {
    root := first;
    var rest := open;
    ghost var taken := checked;
    var i := 1;
    while i < |tables|
      invariant 1 <= i <= |tables| && Built(root, tables, i, conds, cols, rest, taken)
      invariant Shaped(root, tables, i, conds, cols, rest, project)
    {
      root, rest, taken := ExplainRound(root, tables, i, own, rest, derived, indexed, project, cols, taken, conds);
      i := i + 1;
    }
    BuiltDone(root, tables, conds, cols, rest, taken);
  }

  /** The EXPLAIN plan yields the selected columns of exactly the rows that satisfy every condition, where a later
      occurrence of a source contributes only its rows that satisfy its own conditions; it checks these conditions at
      every occurrence and the join conditions once, and never binds a key whose column a projection has dropped. */
  method GenerateExplainPlan(tables: seq<string>, conds: seq<Cond>, cols: seq<Col>, isStar: bool,
                             derived: set<string>, indexed: set<Col>)
    returns (plan: Option<Plan>)
    requires forall c <- conds :: Mentions(c, Tabs(tables))
    ensures plan == None <==> tables == []
    ensures plan.Some? ==> YieldsColumns(plan.value, tables, conds, cols)
    ensures plan.Some? ==> Placed(plan.value) == multiset(Checked(tables, conds)) && AllKeysBound(plan.value, conds)
    ensures plan.Some? ==>
              && plan.value.Project? && plan.value.cols == cols
              && TreeShape(plan.value.sub, tables, |tables|, conds, cols, |tables| > 1 && !isStar)
  {
    if tables == [] {
      return None;
    }
    var project := |tables| > 1 && !isStar;
    var own, rest := PopSingles(tables, conds);
    var root := ExplainLeaf(tables[0], tables[0] in derived, NoKey, own[tables[0]], project, cols, rest);
    FirstSource(root, tables[0], own, own[tables[0]], NeedOf(cols, rest));
    BuiltFirst(root, tables, conds, cols, rest);
    ShapedFirst(root, tables, conds, cols, rest, project);
    root := ExplainJoins(root, tables, own, rest, derived, indexed, project, cols, own[tables[0]], conds);
    plan := Some(Project(root, cols));
  }

  // ---------- when EXPLAIN agrees with the query ----------

  /** Over given sources the EXPLAIN plan yields the selected columns of the filtered cross product if and only if that
      is empty, or every row of each repeated source satisfies the source's own conditions. */
  lemma ExplainExact(plan: Plan, tables: seq<string>, conds: seq<Cond>, cols: seq<Col>, acc: Access)
    requires tables != [] && YieldsColumns(plan, tables, conds, cols) && OwnColumns(acc)
    ensures var all := FilterRows(CrossAll(tables, acc), conds);
            Eval(plan, acc, Unbound) == ProjectRows(all, cols) <==>
              all == [] || AllKept(tables, OwnMap(tables, conds), acc)
  {
    ThinnedExact(tables, OwnMap(tables, conds), acc, conds);
  }

  /** To be checked before the call: no repeated source has conditions of its own. */
  lemma ExplainAgrees(plan: Plan, tables: seq<string>, conds: seq<Cond>, cols: seq<Col>, acc: Access)
    requires tables != [] && YieldsColumns(plan, tables, conds, cols) && OwnColumns(acc)
    requires forall i :: 0 <= i < |tables| && tables[i] in tables[..i] ==> Own(conds, tables[i]) == []
    ensures Eval(plan, acc, Unbound) == ProjectRows(FilterRows(CrossAll(tables, acc), conds), cols)
  {
    ExplainExact(plan, tables, conds, cols, acc);
  }

  lemma {:induction false} OwnCount(conds: seq<Cond>, tab: string, c: Cond)
    ensures multiset(Own(conds, tab))[c] == if IsSingleTableCond(c, tab) then multiset(conds)[c] else 0
  {
    if conds != [] {
      OwnCount(conds[..|conds| - 1], tab, c);
      assert conds == conds[..|conds| - 1] + [conds[|conds| - 1]];
    }
  }

  lemma {:induction false} OthersCount(conds: seq<Cond>, tabs: set<string>, c: Cond)
    ensures multiset(Others(conds, tabs))[c] == if IsOther(c, tabs) then multiset(conds)[c] else 0
  {
    if conds != [] {
      OthersCount(conds[..|conds| - 1], tabs, c);
      assert conds == conds[..|conds| - 1] + [conds[|conds| - 1]];
    }
  }

  lemma {:induction false} OwnEachCount(tables: seq<string>, conds: seq<Cond>, c: Cond)
    ensures multiset(OwnEach(tables, conds))[c] ==
              if IsSingleTableCond(c, c.lhs.tab) then multiset(tables)[c.lhs.tab] * multiset(conds)[c] else 0
  {
    if tables != [] {
      OwnEachCount(tables[1..], conds, c);
      OwnCount(conds, tables[0], c);
      CountFront(tables, c.lhs.tab);
      BagOfBoth(Own(conds, tables[0]), OwnEach(tables[1..], conds), c);
      OneMoreTime(multiset(tables[1..])[c.lhs.tab], multiset(conds)[c]);
    }
  }

  lemma BagOfBoth(a: seq<Cond>, b: seq<Cond>, c: Cond)
    ensures multiset(a + b)[c] == multiset(a)[c] + multiset(b)[c]
  {
  }

  lemma OneMoreTime(n: nat, k: nat)
    ensures (n + 1) * k == k + n * k
  {
  }

  lemma CountFront(tables: seq<string>, tab: string)
    requires tables != []
    ensures multiset(tables)[tab] == multiset(tables[1..])[tab] + if tables[0] == tab then 1 else 0
  {
    assert tables == [tables[0]] + tables[1..];
  }

  /** A condition over one source is checked once for each occurrence of the source, any other condition once. */
  lemma CheckedCount(tables: seq<string>, conds: seq<Cond>, c: Cond)
    requires Mentions(c, Tabs(tables))
    ensures multiset(Checked(tables, conds))[c] ==
              multiset(conds)[c] * if IsSingleTableCond(c, c.lhs.tab) then multiset(tables)[c.lhs.tab] else 1
  {
    OwnEachCount(tables, conds, c);
    OthersCount(conds, Tabs(tables), c);
    BagOfBoth(OwnEach(tables, conds), Others(conds, Tabs(tables)), c);
  }
}
