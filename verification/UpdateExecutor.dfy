/** UpdateExecutor of src/execution on the path without versions: each row is updated together with the index
    entries whose key changes, and a duplicate key undoes the row. An index is the finite map that its handle
    refines. */
module UpdateExecutor {
  import opened Common
  import opened IxIndexHandle
  import opened IndexRange
  import opened Relational
  import opened IndexScanExecutor
  import opened SetClauses
  import KeyOrder

  /** Name analysis: a constant can be stored in its column, and arithmetic is for number columns. */
  ghost predicate TypedSets(sets: seq<SetClause>, idx: seq<IxCol>)
  {
    forall s, x :: s in sets && x in idx && x.col == s.col ==>
      if s.rhs.Constant? then FitsValue(s.rhs.v, x.kind) else x.kind.TypeInt?
  }

  lemma {:induction false} SetsKeepKeys(before: Row, sets: seq<SetClause>, idx: seq<IxCol>)
    requires HasKey(before, idx) && TypedSets(sets, idx)
    ensures HasKey(ApplySets(before, sets), idx) && ApplySets(before, sets).Keys == before.Keys
  {
    if sets != [] {
      SetsKeepKeys(before, sets[..|sets| - 1], idx);
      assert sets[|sets| - 1] in sets;
    }
  }

  ghost predicate IndexesAgree(table: Table, indexes: seq<map<int, Rid>>, idx: seq<seq<IxCol>>)
  {
    |indexes| == |idx| && forall i :: 0 <= i < |idx| ==> IndexAgrees(indexes[i], table, idx[i])
  }

  ghost predicate Keyed(row: Row, idx: seq<seq<IxCol>>)
  {
    forall i :: 0 <= i < |idx| ==> HasKey(row, idx[i])
  }

  lemma CodesDiffer(before: Row, after: Row, idx: seq<IxCol>)
    requires HasKey(before, idx) && HasKey(after, idx)
    ensures RowCode(before, idx) == RowCode(after, idx) <==> KeyVals(before, idx) == KeyVals(after, idx)
  {
    KeyOrder.CodeOrders(KeyVals(before, idx), KeyVals(after, idx), SchemaOf(idx));
  }

  /** Every record is indexed under its key. */
  ghost predicate RecordIndexed(m: map<int, Rid>, table: Table, idx: seq<IxCol>, rid: Rid)
  {
    && rid in table && HasKey(table[rid], idx)
    && RowCode(table[rid], idx) in m && m[RowCode(table[rid], idx)] == rid
  }

  /** Every entry leads to the record that has its key. */
  ghost predicate EntryBacked(m: map<int, Rid>, table: Table, idx: seq<IxCol>, k: int)
  {
    k in m && m[k] in table && HasKey(table[m[k]], idx) && RowCode(table[m[k]], idx) == k
  }

  lemma AgreesIff(m: map<int, Rid>, table: Table, idx: seq<IxCol>)
    ensures IndexAgrees(m, table, idx) <==>
              (forall rid <- table :: RecordIndexed(m, table, idx, rid))
              && (forall k <- m :: EntryBacked(m, table, idx, k))
  {
  }

  /** Moving one record's entry: the index agrees with the changed table. */
  lemma EntryMoved(m: map<int, Rid>, table: Table, idx: seq<IxCol>, rid: Rid, row: Row)
    requires IndexAgrees(m, table, idx) && rid in table && HasKey(row, idx)
    requires KeyVals(row, idx) != KeyVals(table[rid], idx) ==> RowCode(row, idx) !in m
    ensures var before, after := RowCode(table[rid], idx), RowCode(row, idx);
            IndexAgrees((m - {before})[after := rid], table[rid := row], idx)
  {
    var before, after := RowCode(table[rid], idx), RowCode(row, idx);
    CodesDiffer(row, table[rid], idx);
    AgreesIff(m, table, idx);
    var m', table' := (m - {before})[after := rid], table[rid := row];
    assert RecordIndexed(m, table, idx, rid);
    forall q <- table' ensures RecordIndexed(m', table', idx, q)
    {
      assert q in table ==> RecordIndexed(m, table, idx, q);
    }
    forall k <- m' ensures EntryBacked(m', table', idx, k)
    {
      assert k in m ==> EntryBacked(m, table, idx, k);
    }
    AgreesIff(m', table', idx);
  }

  /** An index whose key does not change needs no work. */
  lemma EntryKept(m: map<int, Rid>, table: Table, idx: seq<IxCol>, rid: Rid, row: Row)
    requires IndexAgrees(m, table, idx) && rid in table && HasKey(row, idx)
    requires KeyVals(row, idx) == KeyVals(table[rid], idx)
    ensures IndexAgrees(m, table[rid := row], idx)
  {
    EntryMoved(m, table, idx, rid, row);
    var code := RowCode(row, idx);
    assert m[code] == rid;
    assert (m - {code})[code := rid] == m;
  }

  // ---------- the stages of one index entry ----------

  /** ChangedIndexEntry */
  datatype Changed = Changed(index: nat, oldKey: int, newKey: int)

  datatype Stage = Untouched | Removed | Replaced

  /** The index of a changed entry at a stage of the update. */
  function AtStage(m: map<int, Rid>, e: Changed, rid: Rid, stage: Stage): map<int, Rid>
  {
    match stage
    case Untouched => m
    case Removed => m - {e.oldKey}
    case Replaced => (m - {e.oldKey})[e.newKey := rid]
  }

  /** Distinct indexes, whose keys do change. */
  ghost predicate ChangedOk(changed: seq<Changed>, indexes: seq<map<int, Rid>>, rid: Rid)
  {
    && (forall j :: 0 <= j < |changed| ==> EntryOk(changed[j], indexes, rid))
    && (forall j, k :: 0 <= j < k < |changed| ==> changed[j].index != changed[k].index)
  }

  ghost predicate EntryOk(e: Changed, indexes: seq<map<int, Rid>>, rid: Rid)
  {
    e.index < |indexes| && e.oldKey != e.newKey && e.oldKey in indexes[e.index] && indexes[e.index][e.oldKey] == rid
  }

  ghost predicate Staged(now: seq<map<int, Rid>>, olds: seq<map<int, Rid>>, changed: seq<Changed>, rid: Rid,
                         stages: seq<Stage>)
  {
    && |now| == |olds| && |stages| == |changed| && ChangedOk(changed, olds, rid)
    && (forall j {:trigger stages[j]} :: 0 <= j < |changed| ==>
          now[changed[j].index] == AtStage(olds[changed[j].index], changed[j], rid, stages[j]))
    && (forall i {:trigger now[i]} :: 0 <= i < |now| && (forall j :: 0 <= j < |changed| ==> changed[j].index != i) ==>
        now[i] == olds[i])
  }

  lemma StageStep(now: seq<map<int, Rid>>, olds: seq<map<int, Rid>>, changed: seq<Changed>, rid: Rid,
                  stages: seq<Stage>, j: nat, stage: Stage)
    requires Staged(now, olds, changed, rid, stages) && j < |changed|
    ensures Staged(now[changed[j].index := AtStage(olds[changed[j].index], changed[j], rid, stage)], olds, changed,
                   rid, stages[j := stage])
  {
  }

  lemma StagesBack(now: seq<map<int, Rid>>, olds: seq<map<int, Rid>>, changed: seq<Changed>, rid: Rid,
                   stages: seq<Stage>)
    requires Staged(now, olds, changed, rid, stages) && forall j :: 0 <= j < |stages| ==> stages[j] == Untouched
    ensures now == olds
  {
    forall i | 0 <= i < |now| ensures now[i] == olds[i]
    {
      if exists j :: 0 <= j < |changed| && changed[j].index == i {
        var j :| 0 <= j < |changed| && changed[j].index == i;
        assert stages[j] == Untouched;
      }
    }
  }

  /** Deleting the new entry and inserting the old one lead back. */
  lemma StageInverse(m: map<int, Rid>, e: Changed, rid: Rid)
    requires e.oldKey in m && m[e.oldKey] == rid
    ensures e.newKey !in m ==> AtStage(m, e, rid, Replaced) - {e.newKey} == AtStage(m, e, rid, Removed)
    ensures AtStage(m, e, rid, Removed)[e.oldKey := rid] == m
  {
  }

  class UpdateExecutor {
    /** the columns of each index */
    const idx: seq<seq<IxCol>>
    var table: Table
    var indexes: seq<map<int, Rid>>

    constructor (cols: seq<seq<IxCol>>, t: Table, ix: seq<map<int, Rid>>)
      ensures idx == cols && table == t && indexes == ix
    {
      idx, table, indexes := cols, t, ix;
    }

    ghost predicate Valid()
      reads this
    {
      IndexesAgree(table, indexes, idx)
    }

    /** delete_entry and insert_entry on one index handle */
    method DeleteEntry(i: nat, key: int)
      requires i < |indexes|
      modifies `indexes
      ensures indexes == old(indexes)[i := old(indexes)[i] - {key}]
    {
      indexes := indexes[i := Answer(indexes[i], Delete(key)).0];
    }

    method InsertEntry(i: nat, key: int, rid: Rid) returns (ok: bool)
      requires i < |indexes|
      modifies `indexes
      ensures ok <==> key !in old(indexes)[i]
      ensures indexes == if ok then old(indexes)[i := old(indexes)[i][key := rid]] else old(indexes)
    {
      var (m, reply) := Answer(indexes[i], Insert(key, rid));
      ok := reply == Inserted;
      if ok { indexes := indexes[i := m]; }
    }

    /** The indexes whose key changes, with both keys. */
    method CollectChanged(rid: Rid, before: Row, after: Row) returns (changed: seq<Changed>)
      requires Valid() && rid in table && table[rid] == before && Keyed(after, idx)
      ensures ChangedOk(changed, indexes, rid) && Collected(changed, idx, |idx|, before, after)
    {
      changed := [];
      for i := 0 to |idx|
        invariant ChangedOk(changed, indexes, rid) && Collected(changed, idx, i, before, after)
      {
        assert IndexAgrees(indexes[i], table, idx[i]) && HasKey(after, idx[i]);
        CodesDiffer(before, after, idx[i]);
        if KeyVals(before, idx[i]) != KeyVals(after, idx[i]) {
          var e := Changed(i, RowCode(before, idx[i]), RowCode(after, idx[i]));
          ChangedOne(changed, indexes, rid, e);
          CollectOne(changed, idx, i, before, after, e);
          changed := changed + [e];
        } else {
          CollectSame(changed, idx, i, before, after);
        }
      }
    }

    /** The first loop: every changed index loses the old entry. */
    method DeleteOldEntries(changed: seq<Changed>, ghost rid: Rid) returns (ghost stages: seq<Stage>)
      requires ChangedOk(changed, indexes, rid)
      modifies `indexes
      ensures Staged(indexes, old(indexes), changed, rid, stages)
      ensures forall j :: 0 <= j < |stages| ==> stages[j] == Removed
    {
      stages := seq(|changed|, _ => Untouched);
      for j := 0 to |changed|
        invariant Staged(indexes, old(indexes), changed, rid, stages)
        invariant forall k :: 0 <= k < |stages| ==> stages[k] == if k < j then Removed else Untouched
      {
        StageStep(indexes, old(indexes), changed, rid, stages, j, Removed);
        assert stages[j] == Untouched && EntryOk(changed[j], old(indexes), rid);
        DeleteEntry(changed[j].index, changed[j].oldKey);
        stages := stages[j := Removed];
      }
    }

    /** The second loop, up to a duplicate: n entries have been inserted. */
    method InsertNewEntries(changed: seq<Changed>, rid: Rid, ghost olds: seq<map<int, Rid>>, ghost before: seq<Stage>)
      returns (n: nat, ghost stages: seq<Stage>)
      requires Staged(indexes, olds, changed, rid, before) && forall j :: 0 <= j < |before| ==> before[j] == Removed
      modifies `indexes
      ensures n <= |changed| && Staged(indexes, olds, changed, rid, stages)
      ensures forall j :: 0 <= j < |stages| ==> stages[j] == if j < n then Replaced else Removed
      ensures forall j :: 0 <= j < n ==> changed[j].index < |olds| && changed[j].newKey !in olds[changed[j].index]
      ensures n < |changed| ==> changed[n].index < |olds| && changed[n].newKey in olds[changed[n].index]
    {
      n, stages := 0, before;
      while n < |changed|
        invariant n <= |changed| && Staged(indexes, olds, changed, rid, stages)
        invariant forall j :: 0 <= j < |stages| ==> stages[j] == if j < n then Replaced else Removed
        invariant forall j :: 0 <= j < n ==> changed[j].index < |olds| && changed[j].newKey !in olds[changed[j].index]
      {
        StageStep(indexes, olds, changed, rid, stages, n, Replaced);
        assert stages[n] == Removed && EntryOk(changed[n], olds, rid);
        var ok := InsertEntry(changed[n].index, changed[n].newKey, rid);
        if !ok { return; }
        stages := stages[n := Replaced];
        n := n + 1;
      }
    }

    /** The rollback's first loop: the n inserted entries are deleted. */
    method DeleteNewEntries(changed: seq<Changed>, n: nat, ghost rid: Rid, ghost olds: seq<map<int, Rid>>,
                            ghost before: seq<Stage>)
      returns (ghost stages: seq<Stage>)
      requires n <= |changed| && Staged(indexes, olds, changed, rid, before)
      requires forall j :: 0 <= j < |before| ==> before[j] == if j < n then Replaced else Removed
      requires forall j :: 0 <= j < n ==> changed[j].index < |olds| && changed[j].newKey !in olds[changed[j].index]
      modifies `indexes
      ensures Staged(indexes, olds, changed, rid, stages) && forall j :: 0 <= j < |stages| ==> stages[j] == Removed
    {
      stages := before;
      for j := 0 to n
        invariant Staged(indexes, olds, changed, rid, stages)
        invariant forall k :: 0 <= k < |stages| ==> stages[k] == if j <= k < n then Replaced else Removed
      {
        StageStep(indexes, olds, changed, rid, stages, j, Removed);
        assert stages[j] == Replaced && EntryOk(changed[j], olds, rid);
        StageInverse(olds[changed[j].index], changed[j], rid);
        DeleteEntry(changed[j].index, changed[j].newKey);
        stages := stages[j := Removed];
      }
    }

    /** The rollback's second loop: the deleted entries come back. */
    method RestoreOldEntries(changed: seq<Changed>, rid: Rid, ghost olds: seq<map<int, Rid>>, ghost before: seq<Stage>)
      requires Staged(indexes, olds, changed, rid, before) && forall j :: 0 <= j < |before| ==> before[j] == Removed
      modifies `indexes
      ensures indexes == olds
    {
      ghost var stages := before;
      for j := 0 to |changed|
        invariant Staged(indexes, olds, changed, rid, stages)
        invariant forall k :: 0 <= k < |stages| ==> stages[k] == if k < j then Untouched else Removed
      {
        StageStep(indexes, olds, changed, rid, stages, j, Untouched);
        assert stages[j] == Removed && EntryOk(changed[j], olds, rid);
        StageInverse(olds[changed[j].index], changed[j], rid);
        var _ := InsertEntry(changed[j].index, changed[j].oldKey, rid);
        stages := stages[j := Untouched];
      }
      StagesBack(indexes, olds, changed, rid, stages);
    }

    /** The catch block. */
    method Rollback(changed: seq<Changed>, n: nat, rid: Rid, before: Row, ghost olds: seq<map<int, Rid>>,
                    ghost stages: seq<Stage>)
      requires n <= |changed| && Staged(indexes, olds, changed, rid, stages)
      requires forall j :: 0 <= j < |stages| ==> stages[j] == if j < n then Replaced else Removed
      requires forall j :: 0 <= j < n ==> changed[j].index < |olds| && changed[j].newKey !in olds[changed[j].index]
      modifies `table, `indexes
      ensures indexes == olds && table == old(table)[rid := before]
    {
      ghost var removed := DeleteNewEntries(changed, n, rid, olds, stages);
      table := table[rid := before];
      RestoreOldEntries(changed, rid, olds, removed);
    }

    /** Delete, write back, insert; and the catch block when an insert meets a duplicate. */
    method MoveEntries(changed: seq<Changed>, rid: Rid, before: Row, after: Row)
      returns (ok: bool, ghost stages: seq<Stage>)
      requires ChangedOk(changed, indexes, rid) && rid in table && table[rid] == before
      modifies `table, `indexes
      ensures ok <==> NewKeysFree(changed, old(indexes))
      ensures ok ==> table == old(table)[rid := after] && Staged(indexes, old(indexes), changed, rid, stages)
      ensures ok ==> forall j :: 0 <= j < |stages| ==> stages[j] == Replaced
      ensures !ok ==> table == old(table) && indexes == old(indexes)
    {
      stages := DeleteOldEntries(changed, rid);
      table := table[rid := after];
      var n;
      n, stages := InsertNewEntries(changed, rid, old(indexes), stages);
      ok := n == |changed|;
      if !ok {
        Rollback(changed, n, rid, before, old(indexes), stages);
        assert table == old(table);
      }
    }

    /** One row: it succeeds exactly when no changed index already holds the new key; then record and entries are
        replaced everywhere, and otherwise table and indexes are as before. */
    method UpdateRow(rid: Rid, after: Row) returns (ok: bool)
      requires Valid() && rid in table && Keyed(after, idx)
      modifies `table, `indexes
      ensures Valid()
      ensures ok <==> FreshKeys(old(table)[rid], after, old(indexes), idx)
      ensures ok ==> table == old(table)[rid := after]
      ensures !ok ==> table == old(table) && indexes == old(indexes)
    {
      var before := table[rid];
      var changed := CollectChanged(rid, before, after);
      FreshIff(changed, before, after, indexes, idx);
      ghost var stages;
      ok, stages := MoveEntries(changed, rid, before, after);
      if ok {
        AllReplaced(indexes, old(indexes), changed, rid, stages, old(table), before, after, idx);
      }
    }

    /** Next: every listed record that satisfies the conditions, in turn. A duplicate key stops the statement with
        exactly the earlier rows updated; the indexes agree with the table either way. */
    method Next(rids: seq<Rid>, conds: seq<Cond>, sets: seq<SetClause>) returns (ok: bool, ghost n: nat)
      requires Valid() && forall i :: 0 <= i < |idx| ==> TypedSets(sets, idx[i])
      modifies `table, `indexes
      ensures Valid() && n <= |rids| && table == UpdateAll(old(table), rids[..n], conds, sets)
      ensures ok <==> n == |rids|
      ensures !ok ==> Wanted(table, conds, rids[n]) &&
                      !FreshKeys(table[rids[n]], ApplySets(table[rids[n]], sets), indexes, idx)
    {
      for i := 0 to |rids|
        invariant Valid() && table == UpdateAll(old(table), rids[..i], conds, sets)
      {
        var rid := rids[i];
        assert rids[..i + 1][..i] == rids[..i];
        if rid in table && AllSat(table[rid], conds) {
          var after := BuildRecord(table[rid], sets);
          forall k | 0 <= k < |idx| ensures HasKey(after, idx[k])
          {
            assert IndexAgrees(indexes[k], table, idx[k]);
            SetsKeepKeys(table[rid], sets, idx[k]);
          }
          var done := UpdateRow(rid, after);
          if !done { return false, i; }
        }
      }
      assert rids[..|rids|] == rids;
      return true, |rids|;
    }
  }

  /** The table after updating the given records in turn. */
  function UpdateAll(table: Table, rids: seq<Rid>, conds: seq<Cond>, sets: seq<SetClause>): Table
  {
    if rids == [] then table
    else
      var t := UpdateAll(table, rids[..|rids| - 1], conds, sets);
      var rid := rids[|rids| - 1];
      if Wanted(t, conds, rid) then t[rid := ApplySets(t[rid], sets)] else t
  }

  /** The update of distinct records: each listed one that satisfies the conditions is updated, column by column, and no
      other changes. */
  lemma {:induction false} UpdateAllExact(table: Table, rids: seq<Rid>, conds: seq<Cond>, sets: seq<SetClause>,
                                          rid: Rid)
    requires NoDuplicates(rids)
    ensures var table' := UpdateAll(table, rids, conds, sets);
            && table'.Keys == table.Keys
            && (rid in table ==>
                if rid in rids && AllSat(table[rid], conds) then IsUpdated(table[rid], sets, table'[rid])
                else table'[rid] == table[rid])
  {
    if rids != [] {
      var n := |rids| - 1;
      assert rids == rids[..n] + [rids[n]];
      UpdateAllExact(table, rids[..n], conds, sets, rid);
      if rid == rids[n] && rid in table { ApplySetsExact(table[rid], sets); }
    }
  }

  ghost predicate NewKeysFree(changed: seq<Changed>, indexes: seq<map<int, Rid>>)
  {
    forall j :: 0 <= j < |changed| ==> changed[j].index < |indexes| && changed[j].newKey !in indexes[changed[j].index]
  }

  ghost predicate KeysOf(e: Changed, idx: seq<seq<IxCol>>, before: Row, after: Row)
  {
    && e.index < |idx| && HasKey(before, idx[e.index]) && HasKey(after, idx[e.index])
    && e.oldKey == RowCode(before, idx[e.index]) && e.newKey == RowCode(after, idx[e.index])
    && KeyVals(before, idx[e.index]) != KeyVals(after, idx[e.index])
  }

  ghost predicate SameKey(before: Row, after: Row, cols: seq<IxCol>)
  {
    HasKey(before, cols) && HasKey(after, cols) && KeyVals(before, cols) == KeyVals(after, cols)
  }

  /** Among the first n indexes, changed lists those whose key changes, in order. */
  ghost predicate Collected(changed: seq<Changed>, idx: seq<seq<IxCol>>, n: nat, before: Row, after: Row)
  {
    && n <= |idx|
    && (forall j :: 0 <= j < |changed| ==> KeysOf(changed[j], idx, before, after) && changed[j].index < n)
    && (forall i {:trigger idx[i]} :: 0 <= i < n && (forall j :: 0 <= j < |changed| ==> changed[j].index != i) ==>
        SameKey(before, after, idx[i]))
  }

  lemma ChangedOne(changed: seq<Changed>, indexes: seq<map<int, Rid>>, rid: Rid, e: Changed)
    requires ChangedOk(changed, indexes, rid) && EntryOk(e, indexes, rid)
    requires forall j :: 0 <= j < |changed| ==> changed[j].index < e.index
    ensures ChangedOk(changed + [e], indexes, rid)
  {
  }

  lemma CollectSame(changed: seq<Changed>, idx: seq<seq<IxCol>>, i: nat, before: Row, after: Row)
    requires Collected(changed, idx, i, before, after) && i < |idx| && SameKey(before, after, idx[i])
    ensures Collected(changed, idx, i + 1, before, after)
  {
  }

  lemma CollectOne(changed: seq<Changed>, idx: seq<seq<IxCol>>, i: nat, before: Row, after: Row, e: Changed)
    requires Collected(changed, idx, i, before, after) && i < |idx| && e.index == i && KeysOf(e, idx, before, after)
    ensures Collected(changed + [e], idx, i + 1, before, after)
  {
    var changed' := changed + [e];
    forall n | 0 <= n < i + 1 && forall j :: 0 <= j < |changed'| ==> changed'[j].index != n
      ensures SameKey(before, after, idx[n])
    {
      assert changed'[|changed|] == e;
      forall j | 0 <= j < |changed| ensures changed[j].index != n { assert changed'[j] == changed[j]; }
    }
  }

  /** Index i's key changes, and the index already holds the new key. */
  ghost predicate Duplicate(before: Row, after: Row, m: map<int, Rid>, cols: seq<IxCol>)
  {
    && HasKey(before, cols) && HasKey(after, cols)
    && KeyVals(before, cols) != KeyVals(after, cols) && RowCode(after, cols) in m
  }

  /** No index whose key changes holds the new key. */
  ghost predicate FreshKeys(before: Row, after: Row, indexes: seq<map<int, Rid>>, idx: seq<seq<IxCol>>)
  {
    forall i :: 0 <= i < |idx| && i < |indexes| ==> !Duplicate(before, after, indexes[i], idx[i])
  }

  lemma FreshIff(changed: seq<Changed>, before: Row, after: Row, indexes: seq<map<int, Rid>>, idx: seq<seq<IxCol>>)
    requires |indexes| == |idx| && Collected(changed, idx, |idx|, before, after)
    ensures NewKeysFree(changed, indexes) <==> FreshKeys(before, after, indexes, idx)
  {
    if NewKeysFree(changed, indexes) {
      forall i | 0 <= i < |idx| ensures !Duplicate(before, after, indexes[i], idx[i])
      {
        if j :| 0 <= j < |changed| && changed[j].index == i {
          assert KeysOf(changed[j], idx, before, after);
        } else {
          assert SameKey(before, after, idx[i]);
        }
      }
    }
    if FreshKeys(before, after, indexes, idx) {
      forall j | 0 <= j < |changed| ensures changed[j].newKey !in indexes[changed[j].index]
      {
        assert KeysOf(changed[j], idx, before, after);
        assert !Duplicate(before, after, indexes[changed[j].index], idx[changed[j].index]);
      }
    }
  }

  lemma AllReplaced(now: seq<map<int, Rid>>, olds: seq<map<int, Rid>>, changed: seq<Changed>, rid: Rid,
                    stages: seq<Stage>, table: Table, before: Row, after: Row, idx: seq<seq<IxCol>>)
    requires Staged(now, olds, changed, rid, stages) && forall j :: 0 <= j < |stages| ==> stages[j] == Replaced
    requires IndexesAgree(table, olds, idx) && rid in table && table[rid] == before && Keyed(after, idx)
    requires FreshKeys(before, after, olds, idx)
    requires Collected(changed, idx, |idx|, before, after)
    ensures IndexesAgree(table[rid := after], now, idx)
  {
    forall i | 0 <= i < |idx| ensures IndexAgrees(now[i], table[rid := after], idx[i])
    {
      assert IndexAgrees(olds[i], table, idx[i]) && HasKey(after, idx[i]);
      if j :| 0 <= j < |changed| && changed[j].index == i {
        assert stages[j] == Replaced && KeysOf(changed[j], idx, before, after);
        assert !Duplicate(before, after, olds[i], idx[i]);
        EntryMoved(olds[i], table, idx[i], rid, after);
      } else {
        assert SameKey(before, after, idx[i]);
        EntryKept(olds[i], table, idx[i], rid, after);
      }
    }
  }
}
