/** What the log of the server records: transactions that insert, delete and update the records of tables. Recovery is
    stated against the tables themselves. */
module TableRun {
  import opened Common
  import opened Recovery

  /** The records of all tables. */
  type Records = map<Place, Bytes>

  /** insert_record goes to a free place, delete_record and update_record to a record with the logged bytes. */
  predicate Allowed(t: Records, r: LogRecord)
  {
    match r
    case Insert(_, _, x, _) => x !in t
    case Delete(_, _, x, v) => x in t && t[x] == v
    case Update(_, _, x, v, _) => x in t && t[x] == v
    case _ => true
  }

  function Changed(t: Records, r: LogRecord): Records
  {
    match r
    case Insert(_, _, x, v) => t[x := v]
    case Delete(_, _, x, _) => t - {x}
    case Update(_, _, x, _, v) => t[x := v]
    case _ => t
  }

  /** The tables after the logged operations. */
  function Final(t: Records, logs: seq<LogRecord>): Records
  {
    if logs == [] then t else Changed(Final(t, logs[..|logs| - 1]), logs[|logs| - 1])
  }

  /** Every operation was possible when it was logged. */
  ghost predicate Executes(t: Records, logs: seq<LogRecord>)
  {
    forall i {:trigger logs[i]} :: 0 <= i < |logs| ==> Allowed(Final(t, logs[..i]), logs[i])
  }

  /** The records of some transactions, in order. */
  ghost function Only(logs: seq<LogRecord>, tids: iset<int>): seq<LogRecord>
  {
    if logs == [] then []
    else
      var rest, last := logs[..|logs| - 1], logs[|logs| - 1];
      if last.tid in tids then Only(rest, tids) + [last] else Only(rest, tids)
  }

  /** The tables with the changes of the committed transactions alone. */
  ghost function CommittedRecords(t: Records, logs: seq<LogRecord>): Records
  {
    Final(t, Only(logs, Winners(logs)))
  }

  function Lookup(t: Records, x: Place): Option<Bytes>
  {
    if x in t then Some(t[x]) else None
  }

  ghost function BaseOf(t: Records): Place -> Option<Bytes>
  {
    x => Lookup(t, x)
  }

  // ---------- the log describes the run ----------

  lemma {:induction false} FinalIsAllChanges(t: Records, logs: seq<LogRecord>, x: Place)
    ensures Lookup(Final(t, logs), x) == AllChanges(BaseOf(t), logs, x)
  {
    if logs != [] { FinalIsAllChanges(t, logs[..|logs| - 1], x); }
  }

  /** The log of a run has true before-images. */
  lemma RunHasBeforeImages(t: Records, logs: seq<LogRecord>)
    requires Executes(t, logs)
    ensures BeforeImages(BaseOf(t), logs)
  {
    forall i {:trigger logs[i]} | 0 <= i < |logs| && IsChange(logs[i])
      ensures Before(logs[i]) == AllChanges(BaseOf(t), logs[..i], logs[i].place)
    {
      assert Allowed(Final(t, logs[..i]), logs[i]);
      FinalIsAllChanges(t, logs[..i], logs[i].place);
    }
  }

  lemma FinalOfOne(t: Records, a: seq<LogRecord>, r: LogRecord)
    ensures Final(t, a + [r]) == Changed(Final(t, a), r)
  {
    assert (a + [r])[..|a|] == a;
  }

  lemma {:induction false} OnlyIsWinnerChanges(t: Records, logs: seq<LogRecord>, tids: iset<int>, x: Place)
    ensures Lookup(Final(t, Only(logs, tids)), x) == WinnerChanges(BaseOf(t), logs, tids, x)
  {
    if logs != [] {
      var rest, last := logs[..|logs| - 1], logs[|logs| - 1];
      OnlyIsWinnerChanges(t, rest, tids, x);
      if last.tid in tids { FinalOfOne(t, Only(rest, tids), last); }
    }
  }

  // ---------- the committed transactions alone are a run ----------

  /** Nobody else changed the record before a committed change of it. */
  lemma {:induction false} OnlyTheyChanged(base: Place -> Option<Bytes>, logs: seq<LogRecord>, tids: iset<int>,
                                           x: Place)
    requires forall r <- logs :: Changes(r, x) ==> r.tid in tids
    ensures AllChanges(base, logs, x) == WinnerChanges(base, logs, tids, x)
  {
    if logs != [] { OnlyTheyChanged(base, logs[..|logs| - 1], tids, x); }
  }

  lemma CommittedChangeAllowed(t: Records, logs: seq<LogRecord>, tids: iset<int>, i: nat)
    requires Executes(t, logs) && Strict(logs) && tids == Winners(logs) && i < |logs| && logs[i].tid in tids
    ensures Allowed(Final(t, Only(logs[..i], tids)), logs[i])
  {
    if IsChange(logs[i]) {
      var x := logs[i].place;
      forall r | r in logs[..i] && Changes(r, x) ensures r.tid in tids {
        var k :| 0 <= k < i && logs[..i][k] == r;
        assert logs[k] == r && Changes(logs[i], logs[k].place);
      }
      OnlyTheyChanged(BaseOf(t), logs[..i], tids, x);
      OnlyIsWinnerChanges(t, logs[..i], tids, x);
      FinalIsAllChanges(t, logs[..i], x);
      assert Allowed(Final(t, logs[..i]), logs[i]);
    }
  }

  lemma ExecutesMore(t: Records, a: seq<LogRecord>, r: LogRecord)
    requires Executes(t, a) && Allowed(Final(t, a), r)
    ensures Executes(t, a + [r])
  {
    var b := a + [r];
    forall i {:trigger b[i]} | 0 <= i < |b| ensures Allowed(Final(t, b[..i]), b[i]) {
      assert b[..i] == a[..i];
      if i == |a| { assert a[..i] == a; }
    }
  }

  lemma {:induction false} CommittedPrefixRuns(t: Records, logs: seq<LogRecord>, tids: iset<int>, n: nat)
    requires Executes(t, logs) && Strict(logs) && tids == Winners(logs) && n <= |logs|
    ensures Executes(t, Only(logs[..n], tids))
  {
    if n > 0 {
      CommittedPrefixRuns(t, logs, tids, n - 1);
      assert logs[..n][..n - 1] == logs[..n - 1];
      if logs[n - 1].tid in tids {
        CommittedChangeAllowed(t, logs, tids, n - 1);
        ExecutesMore(t, Only(logs[..n - 1], tids), logs[n - 1]);
      }
    }
  }

  /** Under strict execution the committed transactions could have run alone. */
  lemma CommittedRuns(t: Records, logs: seq<LogRecord>)
    requires Executes(t, logs) && Strict(logs)
    ensures Executes(t, Only(logs, Winners(logs)))
  {
    CommittedPrefixRuns(t, logs, Winners(logs), |logs|);
    assert logs[..|logs|] == logs;
  }

  // ---------- recovery ----------

  /** A page on disk holds what the operations up to its LSN made of it. Of a record that an uncommitted transaction has
      changed on the page nothing is asked: a rollback restores it without a log record. */
  ghost predicate PagesFollow(t: Records, logs: seq<LogRecord>, pages: map<PageId, Page>)
  {
    forall x: Place :: RecordFollows(t, logs, ValueAt(pages, x), LsnOf(pages, x.page), x)
  }

  ghost predicate RecordFollows(t: Records, logs: seq<LogRecord>, v: Option<Bytes>, lsn: int, x: Place)
  {
    || v == Lookup(Final(t, UpTo(logs, lsn)), x)
    || exists i :: 0 <= i < |logs| && logs[i].lsn <= lsn && Changes(logs[i], x) && !Committed(logs, logs[i].tid)
  }

  lemma {:induction false} FirstLoserBelow(logs: seq<LogRecord>, losers: iset<int>, i: nat, x: Place)
    requires i < |logs| && Changes(logs[i], x) && logs[i].tid in losers && LsnsIncrease(logs)
    ensures var f := FirstLoser(logs, losers, x); f.Some? && f.value.lsn <= logs[i].lsn
  {
    var n := |logs| - 1;
    var rest := logs[..n];
    if i < n { FirstLoserBelow(rest, losers, i, x); }
    var f := FirstLoser(rest, losers, x);
    if f.Some? {
      var k :| 0 <= k < n && rest[k] == f.value;
      assert logs[k] == f.value;
    }
  }

  lemma FollowsIsHolds(t: Records, logs: seq<LogRecord>, losers: iset<int>, pages: map<PageId, Page>)
    requires LsnsIncrease(logs) && Decided(logs, Winners(logs), losers) && PagesFollow(t, logs, pages)
    ensures PagesFollowLog(BaseOf(t), logs, losers, pages)
  {
    forall x: Place ensures Holds(BaseOf(t), logs, losers, ValueAt(pages, x), LsnOf(pages, x.page), x) {
      var lsn := LsnOf(pages, x.page);
      assert RecordFollows(t, logs, ValueAt(pages, x), lsn, x);
      if ValueAt(pages, x) == Lookup(Final(t, UpTo(logs, lsn)), x) {
        FinalIsAllChanges(t, UpTo(logs, lsn), x);
      } else {
        var i :| 0 <= i < |logs| && logs[i].lsn <= lsn && Changes(logs[i], x) && !Committed(logs, logs[i].tid);
        assert logs[i] in logs;
        FirstLoserBelow(logs, losers, i, x);
      }
    }
  }

  /** Recovery after a strict run, from any mix of flushed pages: the tables are as if the committed transactions had
      run alone. */
  method RecoverRun(m: RecoveryManager, ghost t: Records)
    requires m.Ready() && OneLifetime(m.logs) && Executes(t, m.logs) && Strict(m.logs)
    requires PagesFollow(t, m.logs, m.pages)
    modifies m
    ensures m.logs == old(m.logs)
    ensures forall x: Place :: ValueAt(m.pages, x) == Lookup(CommittedRecords(t, m.logs), x)
  {
    ghost var pages := m.pages;
    m.Recover(BaseOf(t));
    RunHasBeforeImages(t, m.logs);
    FollowsIsHolds(t, m.logs, AsISet(m.active), pages);
    forall x: Place ensures ValueAt(m.pages, x) == Lookup(CommittedRecords(t, m.logs), x) {
      OnlyIsWinnerChanges(t, m.logs, Winners(m.logs), x);
    }
  }
}
