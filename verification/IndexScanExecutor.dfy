/** IndexScanExecutor of src/execution, without versions: when the index agrees with the table, an index scan
    returns what the filtered full scan would. */
module IndexScanExecutor {
  import opened Common
  import opened BTree
  import opened LeafChain
  import opened IxIndexHandle
  import IxScan
  import opened IndexRange
  import opened Relational
  import KeyOrder

  type Table = map<Rid, Row>

  datatype Outcome = Records(rids: seq<Rid>) | IndexEntryNotFound

  /** Each record is indexed under its key, and nothing else is. */
  ghost predicate IndexAgrees(contents: map<int, Rid>, table: Table, idx: seq<IxCol>)
  {
    && (forall rid <- table :: HasKey(table[rid], idx)
                               && RowCode(table[rid], idx) in contents
                               && contents[RowCode(table[rid], idx)] == rid)
    && (forall k <- contents :: contents[k] in table
                                && HasKey(table[contents[k]], idx)
                                && RowCode(table[contents[k]], idx) == k)
  }

  /** load_visible_index_current: the record exists and satisfies the conditions. */
  predicate Wanted(table: Table, conds: seq<Cond>, rid: Rid)
  {
    rid in table && AllSat(table[rid], conds)
  }

  function Picked(rids: seq<Rid>, table: Table, conds: seq<Cond>): seq<Rid>
  {
    if rids == [] then []
    else
      var last := rids[|rids| - 1];
      Picked(rids[..|rids| - 1], table, conds) + if Wanted(table, conds, last) then [last] else []
  }

  lemma {:induction false} PickedMembers(rids: seq<Rid>, table: Table, conds: seq<Cond>)
    ensures forall rid :: rid in Picked(rids, table, conds) <==> rid in rids && Wanted(table, conds, rid)
    ensures NoDuplicates(rids) ==> NoDuplicates(Picked(rids, table, conds))
  {
    if rids != [] {
      var n := |rids| - 1;
      PickedMembers(rids[..n], table, conds);
      assert rids == rids[..n] + [rids[n]];
      if NoDuplicates(rids) {
        assert rids[n] !in rids[..n];
      }
    }
  }

  /** The start is not behind the end exactly when the bounds are in order or no entry lies between them. */
  lemma StartBeforeEnd(es: seq<Entry>, lo: int, hi: int, from: nat, to: nat)
    requires FirstAtLeast(es, lo, from) && FirstAtLeast(es, hi, to)
    ensures from <= to <==> forall e <- es :: !(hi <= e.key < lo)
  {
    if to < from {
      assert es[to] in es;
    }
  }

  /** Entries of the range, in key order: each wanted record is met, and met once. */
  lemma RangeHoldsAnswer(es: seq<Entry>, contents: map<int, Rid>, table: Table, idx: seq<IxCol>, conds: seq<Cond>,
                         r: Range, j: nat, from: nat, to: nat)
    requires IndexAgrees(contents, table, idx) && EntriesAscending(es)
    requires forall e: Entry :: e in es <==> e.key in contents && contents[e.key] == e.rid
    requires Built(r, idx, conds, |idx|, j)
    requires FirstAtLeast(es, Lo(r, idx), from) && FirstAtLeast(es, Hi(r, idx), to) && from <= to
    ensures var rids := IxScan.RidsOf(es[from..to]);
            NoDuplicates(rids) && forall rid :: Wanted(table, conds, rid) ==> rid in rids
  {
    var rids := IxScan.RidsOf(es[from..to]);
    forall a, b | 0 <= a < b < |rids| ensures rids[a] != rids[b]
    {
      EntryOfRecord(es, contents, table, idx, from + a);
      EntryOfRecord(es, contents, table, idx, from + b);
    }
    forall rid | Wanted(table, conds, rid) ensures rid in rids
    {
      var i := PositionOfWanted(es, contents, table, idx, conds, r, j, from, to, rid);
      assert rids[i - from] == rid;
    }
  }

  lemma EntryOfRecord(es: seq<Entry>, contents: map<int, Rid>, table: Table, idx: seq<IxCol>, i: nat)
    requires IndexAgrees(contents, table, idx) && i < |es|
    requires forall e: Entry :: e in es <==> e.key in contents && contents[e.key] == e.rid
    ensures es[i].rid in table && HasKey(table[es[i].rid], idx) && RowCode(table[es[i].rid], idx) == es[i].key
  {
    assert es[i] in es;
  }

  lemma PositionOfWanted(es: seq<Entry>, contents: map<int, Rid>, table: Table, idx: seq<IxCol>, conds: seq<Cond>,
                         r: Range, j: nat, from: nat, to: nat, rid: Rid) returns (i: nat)
    requires IndexAgrees(contents, table, idx) && Wanted(table, conds, rid)
    requires forall e: Entry :: e in es <==> e.key in contents && contents[e.key] == e.rid
    requires Built(r, idx, conds, |idx|, j)
    requires FirstAtLeast(es, Lo(r, idx), from) && FirstAtLeast(es, Hi(r, idx), to)
    ensures from <= i < to && es[i].rid == rid
  {
    RangeCovers(r, idx, conds, j, table[rid]);
    RangeAsCodes(r, idx, KeyVals(table[rid], idx));
    var code := RowCode(table[rid], idx);
    assert Entry(code, rid) in es;
    i :| 0 <= i < |es| && es[i] == Entry(code, rid);
  }

  /** The positions beginTuple starts from and stops at. */
  method Positions(ih: IndexHandle, r: Range, idx: seq<IxCol>) returns (lower: Iid, upper: Iid)
    requires ih.Valid() && KeysFit(r, idx) && |r.lower| == |idx| && ih.keySpace == KeyOrder.KeySpace(SchemaOf(idx))
    ensures BoundOf(ih.View(), ih.shape, lower, Lo(r, idx)) && BoundOf(ih.View(), ih.shape, upper, Hi(r, idx))
  {
    EndsAreBounds(ih.View(), ih.shape);
    if !r.hasLower {
      lower := ih.LeafBegin();
    } else if r.lowerOpen {
      lower := ih.UpperBound(CodeOf(r.lower, idx));
    } else {
      lower := ih.LowerBound(CodeOf(r.lower, idx));
    }
    if !r.hasUpper {
      upper := ih.LeafEnd();
    } else if r.upperOpen {
      upper := ih.LowerBound(CodeOf(r.upper, idx));
    } else {
      upper := ih.UpperBound(CodeOf(r.upper, idx));
    }
  }

  /** The first entry is the first one not below 0, and none is at or past the key space. */
  lemma EndsAreBounds(t: Tree, s: Shape)
    requires Inv(t, s, -1, NoSplit, -1)
    ensures forall iid :: Position(t, s, iid, 0) ==> BoundOf(t, s, iid, 0)
    ensures forall iid :: Position(t, s, iid, |Walk(t.nodes, s.leaves)|) ==> BoundOf(t, s, iid, t.keySpace)
  {
    var es := Walk(t.nodes, s.leaves);
    ChainSorted(t, s);
    assert forall i :: 0 <= i < |es| ==> es[i] in es;
    assert FirstAtLeast(es, 0, 0) && FirstAtLeast(es, t.keySpace, |es|);
  }

  /** Loading each record that the cursor meets and checking the conditions on it. */
  method Pick(rids: seq<Rid>, table: Table, conds: seq<Cond>) returns (out: seq<Rid>)
    ensures out == Picked(rids, table, conds)
  {
    out := [];
    for i := 0 to |rids|
      invariant out == Picked(rids[..i], table, conds)
    {
      assert rids[..i + 1][..i] == rids[..i];
      if Wanted(table, conds, rids[i]) {
        out := out + [rids[i]];
      }
    }
    assert rids[..|rids|] == rids;
  }

  /** beginTuple and the iteration after it. The scan works exactly when its start is not behind its end and it
      crosses no empty leaf; then it returns each record that satisfies all conditions, once. For the inner side
      of a join, conds includes the bound key. */
  method IndexScan(ih: IndexHandle, idx: seq<IxCol>, table: Table, conds: seq<Cond>)
    returns (o: Outcome, ghost r: Range, ghost from: nat, ghost to: nat)
    requires ih.Valid() && ih.keySpace == KeyOrder.KeySpace(SchemaOf(idx)) && TypedConds(conds, idx)
    requires IndexAgrees(ih.contents, table, idx)
    ensures exists j: nat :: Built(r, idx, conds, |idx|, j)
    ensures FirstAtLeast(ih.Entries(), Lo(r, idx), from) && FirstAtLeast(ih.Entries(), Hi(r, idx), to)
    ensures o.Records? <==> from <= to && IxScan.GapFree(ih.View(), ih.shape, from, to)
    ensures o.Records? ==> NoDuplicates(o.rids) && forall rid :: rid in o.rids <==> Wanted(table, conds, rid)
  {
    var range := BuildRange(idx, conds);
    ghost var j: nat :| Built(range, idx, conds, |idx|, j);
    r := range;
    var lower, upper := Positions(ih, range, idx);
    from :| Position(ih.View(), ih.shape, lower, from) && FirstAtLeast(ih.Entries(), Lo(r, idx), from);
    to :| Position(ih.View(), ih.shape, upper, to) && FirstAtLeast(ih.Entries(), Hi(r, idx), to);
    // the cursor and the check alternate in the source; a cursor without an entry ends the query either way
    var scanned := IxScan.Collect(ih, lower, upper, from, to);
    if scanned.EntryNotFound? {
      return IndexEntryNotFound, r, from, to;
    }
    ChainSorted(ih.View(), ih.shape);
    ChainComplete(ih.View(), ih.shape, ih.contents);
    RangeHoldsAnswer(ih.Entries(), ih.contents, table, idx, conds, r, j, from, to);
    PickedMembers(scanned.rids, table, conds);
    var out := Pick(scanned.rids, table, conds);
    o := Records(out);
  }
}
