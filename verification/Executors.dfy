/** The executors of src/execution as a tree of objects, one per plan node: begun and advanced step by step,
    the tree yields exactly the plan's rows. */
module Executors {
  import opened Common
  import opened Relational
  import opened Plans
  import Planner

  /** The pairs still to come: the rest of the current left row's matches, then those of the later left rows. */
  ghost function Pairs(ls: seq<Row>, rs: seq<Row>, right: Plan, conds: seq<Cond>, acc: Access): seq<Row>
  {
    if ls == [] then [] else FilterRows(PairRows(ls[0], rs), conds) + JoinRows(ls[1..], right, conds, acc)
  }

  lemma PairsHead(ls: seq<Row>, rs: seq<Row>, right: Plan, conds: seq<Cond>, acc: Access)
    requires ls != [] && rs != []
    ensures Pairs(ls, rs, right, conds, acc) ==
              (if AllSat(Merge(ls[0], rs[0]), conds) then [Merge(ls[0], rs[0])] else [])
                + Pairs(ls, rs[1..], right, conds, acc)
  {
    assert PairRows(ls[0], rs) == [Merge(ls[0], rs[0])] + PairRows(ls[0], rs[1..]);
    assert PairRows(ls[0], rs)[1..] == PairRows(ls[0], rs[1..]);
  }

  /** Restarting the right child under the first left row. */
  lemma PairsStart(ls: seq<Row>, right: Plan, conds: seq<Cond>, acc: Access)
    requires ls != []
    ensures JoinRows(ls, right, conds, acc) == Pairs(ls, Eval(right, acc, Bound(ls[0])), right, conds, acc)
  {
  }

  /** An executor. Its class in the source is that of its plan node; each method does what the virtual method of
      that class does. */
  class Executor {
    const plan: Plan
    const acc: Access
    /** the child of a filter or projection, the left child of a join */
    const prev: Executor?
    const right: Executor?
    ghost const repr: set<object>

    /** scans: the rows of the source, the cursor, the conditions in force, and the bound join key */
    var rows: seq<Row>
    var pos: nat
    var fed: seq<Cond>
    var bound: Bound
    /** filters and joins */
    var isEnd: bool
    var leftRec: Row
    var rightRec: Row

    /** the join key bound last; whether beginTuple has been called; the rows still to come, the current one first */
    ghost var key: Bound
    ghost var begun: bool
    ghost var ahead: seq<Row>

    ghost predicate Child(c: Executor, p: Plan)
    {
      c in c.repr && c.repr <= repr && this !in c.repr && c.plan == p && c.acc == acc
    }

    /** The children belong to the plan and are valid; a filter or projection hands the join key on. */
    ghost predicate Kids()
      reads this, repr
      decreases plan, 0
    {
      this in repr &&
      match plan
      case Scan(_, _, _) => prev == null && right == null && bound == key
      case Derived(_) => prev == null && right == null
      case Filter(sub, _) => prev != null && right == null && Child(prev, sub) && prev.Valid() && prev.key == key
      case Project(sub, _) => prev != null && right == null && Child(prev, sub) && prev.Valid() && prev.key == key
      case Join(l, r, _) =>
        && prev != null && Child(prev, l) && prev.Valid() && prev.key == Unbound
        && right != null && Child(right, r) && right.Valid() && prev.repr !! right.repr
    }

    ghost predicate Valid()
      reads this, repr
      decreases plan, 1
    {
      Kids() && (begun ==> Current())
    }

    /** What `ahead` means, and that the current row has been fetched. */
    ghost predicate Current()
      reads this, prev, right
    {
      match plan
      case Scan(_, _, _) =>
        pos <= |rows| && ahead == FilterRows(rows[pos..], fed) && (pos < |rows| ==> AllSat(rows[pos], fed))
      case Derived(_) => pos <= |rows| && ahead == rows[pos..]
      case Filter(_, conds) =>
        && prev != null && prev.begun && ahead == FilterRows(prev.ahead, conds)
        && if isEnd then prev.ahead == [] else prev.ahead != [] && leftRec == prev.ahead[0] && AllSat(leftRec, conds)
      case Project(_, cols) => prev != null && prev.begun && ahead == ProjectRows(prev.ahead, cols)
      case Join(_, r, conds) =>
        && prev != null && right != null && prev.begun && (!isEnd ==> right.begun)
        && ahead == Pairs(prev.ahead, right.ahead, r, conds, acc)
        && if isEnd then prev.ahead == []
           else && prev.ahead != [] && leftRec == prev.ahead[0] && right.ahead != [] && rightRec == right.ahead[0]
                && AllSat(Merge(leftRec, rightRec), conds)
    }

    constructor (p: Plan, a: Access)
      ensures Valid() && plan == p && acc == a && key == Unbound && !begun && fresh(repr)
      decreases p
    {
      plan, acc, rows, pos, fed, bound, isEnd, leftRec, rightRec := p, a, [], 0, [], Unbound, true, map[], map[];
      key, begun, ahead := Unbound, false, [];
      prev, right := null, null;
      repr := {this};
      match p {
        case Filter(sub, _) =>
          var c := new Executor(sub, a);
          prev := c;
          repr := {this} + c.repr;
        case Project(sub, _) =>
          var c := new Executor(sub, a);
          prev := c;
          repr := {this} + c.repr;
        case Join(l, r, _) =>
          var c := new Executor(l, a);
          var d := new Executor(r, a);
          prev, right := c, d;
          repr := {this} + c.repr + d.repr;
        case _ =>
      }
    }

    predicate IsEnd()
      requires Valid() && begun
      reads this, repr
      ensures IsEnd() <==> ahead == []
      decreases plan
    {
      assert Kids();
      match plan
      case Scan(_, _, _) => pos >= |rows|
      case Derived(_) => pos >= |rows|
      case Project(_, _) => prev.IsEnd()
      case Filter(_, _) => isEnd
      case Join(_, _, _) => PairsFirst(); isEnd
    }

    /** Next(), which does not move the cursor. */
    function Next(): (row: Row)
      requires Valid() && begun && ahead != []
      reads this, repr
      ensures row == ahead[0]
      decreases plan
    {
      assert Kids();
      match plan
      case Scan(_, _, _) => rows[pos]
      case Derived(_) => rows[pos]
      case Project(_, cols) => ProjectRow(prev.Next(), cols)
      case Filter(_, _) => leftRec
      case Join(_, _, _) => PairsFirst(); Merge(leftRec, rightRec)
    }

    lemma PairsFirst()
      requires Valid() && begun && plan.Join?
      ensures isEnd <==> ahead == []
      ensures !isEnd ==> ahead[0] == Merge(leftRec, rightRec)
    {
      if !isEnd { PairsHead(prev.ahead, right.ahead, right.plan, plan.conds, acc); }
    }

    /** bind_join_key: index scans keep the key, filters and projections hand it on, the others ignore it. */
    method BindJoinKey(row: Row)
      requires Valid()
      modifies repr
      ensures Valid() && key == Bound(row) && begun == old(begun) && ahead == old(ahead)
      decreases plan
    {
      assert Kids();
      match plan {
        case Scan(_, _, _) => bound := Bound(row);
        case Filter(_, _) => prev.BindJoinKey(row);
        case Project(_, _) => prev.BindJoinKey(row);
        case _ =>
      }
      key := Bound(row);
      assert Kids();
    }

    method BeginTuple()
      requires Valid()
      modifies repr
      ensures Valid() && begun && key == old(key) && ahead == Eval(plan, acc, key)
      decreases plan, 4
    {
      match plan {
        case Scan(_, _, _) => BeginScan();
        case Derived(_) => BeginDerived();
        case Filter(_, _) => BeginFilter();
        case Project(_, _) => BeginProject();
        case Join(_, _, _) => BeginJoin();
      }
    }

    method NextTuple()
      requires Valid() && begun && ahead != []
      modifies repr
      ensures Valid() && begun && key == old(key) && ahead == old(ahead)[1..]
      decreases plan, 4
    {
      match plan {
        case Scan(_, _, _) => NextScan();
        case Derived(_) =>
          assert rows[pos + 1..] == rows[pos..][1..];
          pos, ahead := pos + 1, ahead[1..];
        case Filter(_, _) => NextFilter();
        case Project(_, _) => NextProject();
        case Join(_, _, _) => NextJoin();
      }
    }

    // ---------- scans ----------

    /** From the cursor on to the next row that satisfies the conditions. */
    method SkipRows()
      requires Kids() && plan.Scan? && pos <= |rows|
      modifies `pos, `ahead, `begun
      ensures Valid() && begun && ahead == FilterRows(rows[old(pos)..], fed)
    {
      while pos < |rows| && !AllSat(rows[pos], fed)
        invariant pos <= |rows| && FilterRows(rows[pos..], fed) == FilterRows(rows[old(pos)..], fed)
      {
        assert rows[pos..][1..] == rows[pos + 1..];
        pos := pos + 1;
      }
      ahead, begun := FilterRows(rows[pos..], fed), true;
    }

    method BeginScan()
      requires Valid() && plan.Scan?
      modifies this
      ensures Valid() && begun && key == old(key) && ahead == Eval(plan, acc, key)
    {
      rows, pos := if Ready(plan.key, bound) then RowsOf(acc, plan.tab) else [], 0;
      fed := plan.conds + KeyConds(plan.key, bound);
      assert rows[0..] == rows;
      SkipRows();
    }

    method NextScan()
      requires Valid() && begun && plan.Scan? && ahead != []
      modifies this
      ensures Valid() && begun && key == old(key) && ahead == old(ahead)[1..]
    {
      assert rows[pos..][1..] == rows[pos + 1..];
      pos := pos + 1;
      SkipRows();
    }

    method BeginDerived()
      requires Valid() && plan.Derived?
      modifies this
      ensures Valid() && begun && key == old(key) && ahead == Eval(plan, acc, key)
    {
      rows, pos := RowsOf(acc, plan.tab), 0;
      ahead, begun := rows, true;
    }

    // ---------- FilterExecutor ----------

    /** The child stands on a row that satisfies the conditions, or at its end. */
    method StopFilter(found: bool)
      requires Kids() && plan.Filter? && prev.begun
      requires if found then prev.ahead != [] && leftRec == prev.ahead[0] && AllSat(leftRec, plan.conds)
               else prev.ahead == []
      modifies `isEnd, `ahead, `begun
      ensures Valid() && begun && ahead == FilterRows(prev.ahead, plan.conds)
    {
      isEnd, ahead, begun := !found, FilterRows(prev.ahead, plan.conds), true;
    }

    /** find_next_valid */
    method FindNextValid()
      requires Kids() && plan.Filter? && prev.begun
      modifies repr
      ensures Valid() && begun && key == old(key) && ahead == FilterRows(old(prev.ahead), plan.conds)
      decreases plan, 0
    {
      ghost var start := prev.ahead;
      while !prev.IsEnd()
        invariant Kids() && prev.begun && key == old(key)
        invariant FilterRows(prev.ahead, plan.conds) == FilterRows(start, plan.conds)
        decreases |prev.ahead|
      {
        var rec := prev.Next();
        if AllSat(rec, plan.conds) {
          leftRec := rec;
          StopFilter(true);
          return;
        }
        prev.NextTuple();
      }
      StopFilter(false);
    }

    method BeginFilter()
      requires Valid() && plan.Filter?
      modifies repr
      ensures Valid() && begun && key == old(key) && ahead == Eval(plan, acc, key)
      decreases plan, 1
    {
      assert Kids();
      prev.BeginTuple();
      FindNextValid();
    }

    method NextFilter()
      requires Valid() && begun && plan.Filter? && ahead != []
      modifies repr
      ensures Valid() && begun && key == old(key) && ahead == old(ahead)[1..]
      decreases plan, 1
    {
      assert Kids();
      prev.NextTuple();
      FindNextValid();
    }

    // ---------- ProjectionExecutor ----------

    method BeginProject()
      requires Valid() && plan.Project?
      modifies repr
      ensures Valid() && begun && key == old(key) && ahead == Eval(plan, acc, key)
      decreases plan, 0
    {
      assert Kids();
      prev.BeginTuple();
      ahead, begun := ProjectRows(prev.ahead, plan.cols), true;
    }

    method NextProject()
      requires Valid() && begun && plan.Project? && ahead != []
      modifies repr
      ensures Valid() && begun && key == old(key) && ahead == old(ahead)[1..]
      decreases plan, 0
    {
      assert Kids();
      prev.NextTuple();
      ahead := ProjectRows(prev.ahead, plan.cols);
    }

    // ---------- NestedLoopJoinExecutor ----------

    /** Both children stand somewhere, the right one under the current left row. */
    ghost predicate Paired()
      reads this, repr
    {
      && Kids() && plan.Join? && prev.begun
      && (prev.ahead != [] ==> right.begun && leftRec == prev.ahead[0])
    }

    /** What the children would still give. */
    ghost function Rest(): seq<Row>
      requires Paired()
      reads this, repr
    {
      Pairs(prev.ahead, right.ahead, right.plan, plan.conds, acc)
    }

    /** The left child stands on a row: fetch it, and restart the right child under it. */
    method RestartRight()
      requires Kids() && plan.Join? && prev.begun && prev.ahead != []
      modifies `leftRec, right.repr
      ensures Paired() && prev.ahead == old(prev.ahead) && key == old(key)
      ensures Rest() == JoinRows(prev.ahead, right.plan, plan.conds, acc)
      decreases plan, 0
    {
      PairsStart(prev.ahead, right.plan, plan.conds, acc);
      leftRec := prev.Next();
      right.BindJoinKey(leftRec);
      right.BeginTuple();
    }

    /** The inner loop of advance_to_next_match: the next match under the current left row, if any. */
    method MatchRight() returns (found: bool)
      requires Paired() && prev.ahead != []
      modifies `rightRec, right.repr
      ensures Paired() && prev.ahead == old(prev.ahead) && key == old(key) && Rest() == old(Rest())
      ensures if found then right.ahead != [] && rightRec == right.ahead[0]
              && AllSat(Merge(leftRec, rightRec), plan.conds)
              else right.ahead == []
      decreases plan, 0
    {
      ghost var start := Rest();
      while !right.IsEnd()
        invariant Paired() && prev.ahead == old(prev.ahead) && key == old(key) && Rest() == start
        decreases |right.ahead|
      {
        var curRight := right.Next();
        PairsHead(prev.ahead, right.ahead, right.plan, plan.conds, acc);
        if AllSat(Merge(leftRec, curRight), plan.conds) {
          rightRec := curRight;
          return true;
        }
        right.NextTuple();
      }
      found := false;
    }

    /** The right child is exhausted: on to the next left row. */
    method NextLeft()
      requires Paired() && prev.ahead != [] && right.ahead == []
      modifies repr
      ensures Paired() && prev.ahead == old(prev.ahead)[1..] && key == old(key) && Rest() == old(Rest())
      decreases plan, 1
    {
      prev.NextTuple();
      if !prev.IsEnd() {
        RestartRight();
      }
    }

    /** The children stand on a match, or the left one is at its end. */
    method Settle(found: bool)
      requires Paired()
      requires if found then && prev.ahead != [] && right.ahead != [] && rightRec == right.ahead[0]
                             && AllSat(Merge(leftRec, rightRec), plan.conds)
               else prev.ahead == []
      modifies `isEnd, `ahead, `begun
      ensures Valid() && begun && ahead == old(Rest())
    {
      isEnd, ahead, begun := !found, Rest(), true;
    }

    /** advance_to_next_match: skips exactly the pairs that fail the conditions, and terminates. */
    method AdvanceToNextMatch()
      requires Paired()
      modifies repr
      ensures Valid() && begun && key == old(key) && ahead == old(Rest())
      decreases plan, 2
    {
      ghost var start := Rest();
      while !prev.IsEnd()
        invariant Paired() && key == old(key) && Rest() == start
        decreases |prev.ahead|
      {
        var found := MatchRight();
        if found {
          Settle(true);
          return;
        }
        NextLeft();
      }
      Settle(false);
    }

    method BeginJoin()
      requires Valid() && plan.Join?
      modifies repr
      ensures Valid() && begun && key == old(key) && ahead == Eval(plan, acc, key)
      decreases plan, 3
    {
      assert Kids();
      prev.BeginTuple();
      if !prev.IsEnd() {
        RestartRight();
        AdvanceToNextMatch();
      } else {
        Settle(false);
      }
    }

    method NextJoin()
      requires Valid() && begun && plan.Join? && ahead != []
      modifies repr
      ensures Valid() && begun && key == old(key) && ahead == old(ahead)[1..]
      decreases plan, 3
    {
      assert Kids();
      PairsFirst();
      PairsHead(prev.ahead, right.ahead, right.plan, plan.conds, acc);
      right.NextTuple();
      AdvanceToNextMatch();
    }
  }

  lemma Regroup(out: seq<Row>, rest: seq<Row>)
    requires rest != []
    ensures out + rest == (out + [rest[0]]) + rest[1..]
  {
  }

  /** Building the executors of a plan, beginning, and taking rows until the end gives the plan's rows: in particular
      every matching pair of a join once, in left-major order, with the right side rebound to each left row. */
  method Drain(plan: Plan, acc: Access) returns (out: seq<Row>)
    ensures out == Eval(plan, acc, Unbound)
  {
    var root := new Executor(plan, acc);
    root.BeginTuple();
    out := [];
    while !root.IsEnd()
      invariant fresh(root.repr) && root.Valid() && root.begun && out + root.ahead == Eval(plan, acc, Unbound)
      decreases |root.ahead|
    {
      Regroup(out, root.ahead);
      out := out + [root.Next()];
      root.NextTuple();
    }
  }

  /** Planning a query and draining its executors gives the rows of the cross product that satisfy every condition. */
  method RunQuery(tables: seq<string>, conds: seq<Cond>, derived: set<string>, indexed: set<Col>, acc: Access)
    returns (rows: Option<seq<Row>>)
    requires OwnColumns(acc) && forall c <- conds :: Mentions(c, Planner.Tabs(tables))
    ensures rows == if tables == [] then None else Some(FilterRows(CrossAll(tables, acc), conds))
  {
    var plan := Planner.MakeOneRel(tables, conds, derived, indexed);
    if plan == None {
      return None;
    }
    var out := Drain(plan.value, acc);
    rows := Some(out);
  }
}
