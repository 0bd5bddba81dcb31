/** Crash recovery of the record tables: analyze, redo of winners, undo of losers,
    guided by the LSN on each page (src/recovery/log_recovery.cpp). */
module Recovery {
  import opened Common

  datatype PageId = PageId(table: string, pageNo: int)

  /** Where a record lives: a slot of a page of a table. */
  datatype Place = Place(page: PageId, slot: int)

  /** A page of a table file: its LSN and the records in its slots. */
  datatype Page = Page(lsn: int, records: map<int, Bytes>)

  datatype LogRecord =
    | Begin(lsn: int, tid: int)
    | Commit(lsn: int, tid: int)
    | Abort(lsn: int, tid: int)
    | Checkpoint(lsn: int, tid: int)
    | Insert(lsn: int, tid: int, place: Place, value: Bytes)
    | Delete(lsn: int, tid: int, place: Place, value: Bytes)
    | Update(lsn: int, tid: int, place: Place, before: Bytes, after: Bytes)

  predicate IsChange(r: LogRecord)
  {
    r.Insert? || r.Delete? || r.Update?
  }

  predicate Changes(r: LogRecord, x: Place)
  {
    IsChange(r) && r.place == x
  }

  function Before(r: LogRecord): Option<Bytes>
    requires IsChange(r)
  {
    match r
    case Insert(_, _, _, _) => None
    case Delete(_, _, _, v) => Some(v)
    case Update(_, _, _, v, _) => Some(v)
  }

  function After(r: LogRecord): Option<Bytes>
    requires IsChange(r)
  {
    match r
    case Insert(_, _, _, v) => Some(v)
    case Delete(_, _, _, _) => None
    case Update(_, _, _, _, v) => Some(v)
  }

  // ---------- the state of the tables ----------

  function ValueAt(pages: map<PageId, Page>, x: Place): Option<Bytes>
  {
    if x.page in pages && x.slot in pages[x.page].records then Some(pages[x.page].records[x.slot]) else None
  }

  /** A page that does not exist counts as an empty page without an LSN. */
  function LsnOf(pages: map<PageId, Page>, p: PageId): int
  {
    if p in pages then pages[p].lsn else INVALID_LSN
  }

  // ---------- what the log means ----------

  ghost predicate Committed(logs: seq<LogRecord>, tid: int)
  {
    exists r :: r in logs && r.Commit? && r.tid == tid
  }

  /** The value of x after every change in the log, whoever made it. */
  ghost function AllChanges(base: Place -> Option<Bytes>, logs: seq<LogRecord>, x: Place): Option<Bytes>
  {
    if logs == [] then base(x)
    else
      var last := logs[|logs| - 1];
      if Changes(last, x) then After(last) else AllChanges(base, logs[..|logs| - 1], x)
  }

  /** The value of x given by the transactions of `winners` alone. */
  ghost function WinnerChanges(base: Place -> Option<Bytes>, logs: seq<LogRecord>, winners: iset<int>,
                               x: Place): Option<Bytes>
  {
    if logs == [] then base(x)
    else
      var last := logs[|logs| - 1];
      if Changes(last, x) && last.tid in winners then After(last)
      else WinnerChanges(base, logs[..|logs| - 1], winners, x)
  }

  ghost function Winners(logs: seq<LogRecord>): iset<int>
  {
    iset tid | Committed(logs, tid)
  }

  /** The log up to an LSN. */
  ghost function UpTo(logs: seq<LogRecord>, lsn: int): seq<LogRecord>
  {
    if logs == [] then []
    else if logs[|logs| - 1].lsn <= lsn then logs
    else UpTo(logs[..|logs| - 1], lsn)
  }

  ghost predicate LsnsValid(logs: seq<LogRecord>)
  {
    forall i :: 0 <= i < |logs| ==> 0 <= logs[i].lsn
  }

  /** The log of one server lifetime: LSNs count up from 0. */
  ghost predicate LsnsIncrease(logs: seq<LogRecord>)
  {
    && LsnsValid(logs)
    && (forall i, j :: 0 <= i < j < |logs| ==> logs[i].lsn < logs[j].lsn)
  }

  /** A change records the value that it replaced. */
  ghost predicate BeforeImages(base: Place -> Option<Bytes>, logs: seq<LogRecord>)
  {
    forall i {:trigger logs[i]} :: 0 <= i < |logs| && IsChange(logs[i]) ==>
      Before(logs[i]) == AllChanges(base, logs[..i], logs[i].place)
  }

  /** Strictness: nobody else writes a record after a transaction that did not commit wrote it. */
  ghost predicate Strict(logs: seq<LogRecord>)
  {
    forall i, j :: 0 <= i < j < |logs| && IsChange(logs[i]) && Changes(logs[j], logs[i].place) &&
                   logs[i].tid != logs[j].tid
      ==> Committed(logs, logs[i].tid)
  }

  /** What analyze calls active: the last begin, abort or change since the last commit;
      a change of an id that has committed before does not make it active again. */
  ghost predicate Active(logs: seq<LogRecord>, tid: int)
  {
    logs != [] &&
    var last, rest := logs[|logs| - 1], logs[..|logs| - 1];
    if last.tid != tid || last.Checkpoint? then Active(rest, tid)
    else if last.Commit? then false
    else if IsChange(last) then Active(rest, tid) || !Committed(rest, tid)
    else true
  }

  /** A transaction id is not used again after its commit. */
  ghost predicate CommitIsFinal(logs: seq<LogRecord>)
  {
    forall i, j :: 0 <= i < j < |logs| && logs[i].Commit? && (logs[j].Begin? || logs[j].Abort?) ==>
      logs[i].tid != logs[j].tid
  }

  // ---------- what redo and undo do to one record ----------

  /** Redo: winners' changes above the page LSN, in log order. */
  ghost function RedoOutcome(logs: seq<LogRecord>, winners: iset<int>, v: Option<Bytes>, lsn: int,
                             x: Place): Option<Bytes>
  {
    if logs == [] then v
    else
      var last := logs[|logs| - 1];
      if Changes(last, x) && last.tid in winners && last.lsn > lsn then After(last)
      else RedoOutcome(logs[..|logs| - 1], winners, v, lsn, x)
  }

  /** Undo: the listed changes up to the page LSN, in list order. */
  ghost function UndoOutcome(undo: seq<LogRecord>, v: Option<Bytes>, lsn: int, x: Place): Option<Bytes>
  {
    if undo == [] then v
    else
      var last := undo[|undo| - 1];
      if Changes(last, x) && last.lsn <= lsn then Before(last)
      else UndoOutcome(undo[..|undo| - 1], v, lsn, x)
  }

  /** The losers' changes, newest first. */
  ghost function Losing(logs: seq<LogRecord>, losers: iset<int>): (r: seq<LogRecord>)
  {
    if logs == [] then []
    else
      var last := logs[|logs| - 1];
      (if IsChange(last) && last.tid in losers then [last] else []) + Losing(logs[..|logs| - 1], losers)
  }

  /** The whole of recovery, for one record: redo with page LSN lsn0, then undo with page LSN lsn1. */
  ghost function Outcome(logs: seq<LogRecord>, winners: iset<int>, losers: iset<int>,
                         v: Option<Bytes>, lsn0: int, lsn1: int, x: Place): Option<Bytes>
  {
    UndoOutcome(Losing(logs, losers), RedoOutcome(logs, winners, v, lsn0, x), lsn1, x)
  }

  lemma {:induction false} UndoConcat(a: seq<LogRecord>, b: seq<LogRecord>, v: Option<Bytes>, lsn: int, x: Place)
    ensures UndoOutcome(a + b, v, lsn, x) == UndoOutcome(b, UndoOutcome(a, v, lsn, x), lsn, x)
  {
    if b == [] {
      assert a + b == a;
    } else {
      var shorter := b[..|b| - 1];
      assert (a + b)[..|a + b| - 1] == a + shorter;
      UndoConcat(a, shorter, v, lsn, x);
    }
  }

  /** The oldest loser change of x, if any, decides what undo leaves. */
  ghost function FirstLoser(logs: seq<LogRecord>, losers: iset<int>, x: Place): (f: Option<LogRecord>)
    ensures f.Some? ==> f.value in logs && Changes(f.value, x) && f.value.tid in losers
  {
    if logs == [] then None
    else
      var rest := FirstLoser(logs[..|logs| - 1], losers, x);
      var last := logs[|logs| - 1];
      if rest.Some? then rest
      else if Changes(last, x) && last.tid in losers then Some(last) else None
  }

  lemma {:induction false} UndoIsFirstLoser(logs: seq<LogRecord>, losers: iset<int>, v: Option<Bytes>, lsn: int,
                                            x: Place)
    requires LsnsIncrease(logs)
    ensures var f := FirstLoser(logs, losers, x);
            UndoOutcome(Losing(logs, losers), v, lsn, x) == if f.Some? && f.value.lsn <= lsn then Before(f.value) else v
  {
    if logs != [] {
      var last, rest := logs[|logs| - 1], logs[..|logs| - 1];
      var step := if IsChange(last) && last.tid in losers then [last] else [];
      UndoConcat(step, Losing(rest, losers), v, lsn, x);
      UndoIsFirstLoser(rest, losers, UndoOutcome(step, v, lsn, x), lsn, x);
    }
  }

  // ---------- when recovery is right ----------

  /** The oldest loser change of x recorded the committed value of x. */
  ghost predicate LoserRestores(base: Place -> Option<Bytes>, logs: seq<LogRecord>, winners: iset<int>,
                                losers: iset<int>, x: Place)
  {
    var f := FirstLoser(logs, losers, x);
    f.Some? ==> Before(f.value) == WinnerChanges(base, logs, winners, x)
  }

  /** A page flushed with the given LSN holds the changes of x up to that LSN. Nothing is asked of a record whose oldest
      loser change has reached the page: a transaction that rolls back restores the record without a log record and
      without touching the page LSN. */
  ghost predicate Holds(base: Place -> Option<Bytes>, logs: seq<LogRecord>, losers: iset<int>,
                        v: Option<Bytes>, lsn: int, x: Place)
  {
    var f := FirstLoser(logs, losers, x);
    (f.Some? && f.value.lsn <= lsn) || v == AllChanges(base, UpTo(logs, lsn), x)
  }

  ghost predicate PagesFollowLog(base: Place -> Option<Bytes>, logs: seq<LogRecord>, losers: iset<int>,
                                 pages: map<PageId, Page>)
  {
    forall x: Place :: Holds(base, logs, losers, ValueAt(pages, x), LsnOf(pages, x.page), x)
  }

  /** Every change belongs to a winner or a loser, and to one of them only. */
  ghost predicate Decided(logs: seq<LogRecord>, winners: iset<int>, losers: iset<int>)
  {
    forall r <- logs :: IsChange(r) ==> (r.tid in winners <==> r.tid !in losers)
  }

  lemma {:induction false} RedoNothing(logs: seq<LogRecord>, winners: iset<int>, v: Option<Bytes>, lsn: int, x: Place)
    requires forall r <- logs :: r.lsn <= lsn
    ensures RedoOutcome(logs, winners, v, lsn, x) == v
  {
    if logs != [] { RedoNothing(logs[..|logs| - 1], winners, v, lsn, x); }
  }

  lemma {:induction false} WithoutLosers(base: Place -> Option<Bytes>, logs: seq<LogRecord>, winners: iset<int>,
                                         losers: iset<int>, x: Place)
    requires Decided(logs, winners, losers) && FirstLoser(logs, losers, x) == None
    ensures AllChanges(base, logs, x) == WinnerChanges(base, logs, winners, x)
  {
    if logs != [] { WithoutLosers(base, logs[..|logs| - 1], winners, losers, x); }
  }

  /** From any flushed prefix without a loser change of x, redo reaches the committed value. */
  lemma {:induction false} RedoReaches(base: Place -> Option<Bytes>, logs: seq<LogRecord>, winners: iset<int>,
                                       losers: iset<int>, lsn: int, x: Place)
    requires LsnsIncrease(logs) && Decided(logs, winners, losers)
    requires var f := FirstLoser(logs, losers, x); f.Some? ==> f.value.lsn > lsn
    ensures RedoOutcome(logs, winners, AllChanges(base, UpTo(logs, lsn), x), lsn, x) ==
              WinnerChanges(base, logs, winners, x)
  {
    if logs != [] {
      var last, rest := logs[|logs| - 1], logs[..|logs| - 1];
      if last.lsn > lsn {
        RedoReaches(base, rest, winners, losers, lsn, x);
      } else {
        RedoNothing(logs, winners, AllChanges(base, logs, x), lsn, x);
        WithoutLosers(base, logs, winners, losers, x);
      }
    }
  }

  /** Redo leaves the record alone or gives it the committed value. */
  lemma {:induction false} RedoChoices(base: Place -> Option<Bytes>, logs: seq<LogRecord>, winners: iset<int>,
                                       v: Option<Bytes>, lsn: int, x: Place)
    requires LsnsIncrease(logs)
    ensures RedoOutcome(logs, winners, v, lsn, x) in {v, WinnerChanges(base, logs, winners, x)}
  {
    if logs != [] {
      var last, rest := logs[|logs| - 1], logs[..|logs| - 1];
      if Changes(last, x) && last.tid in winners {
        if last.lsn <= lsn { RedoNothing(rest, winners, v, lsn, x); }
      } else {
        RedoChoices(base, rest, winners, v, lsn, x);
      }
    }
  }

  /** Recovery of a record whose page was flushed with LSN lsn0 and left at lsn1 by redo gives the committed value
      if and only if the record's oldest loser change is above lsn1 or recorded that value. */
  lemma RecoveryExact(base: Place -> Option<Bytes>, logs: seq<LogRecord>, winners: iset<int>, losers: iset<int>,
                      v: Option<Bytes>, lsn0: int, lsn1: int, x: Place)
    requires LsnsIncrease(logs) && Decided(logs, winners, losers) && lsn0 <= lsn1
    requires Holds(base, logs, losers, v, lsn0, x)
    ensures var f := FirstLoser(logs, losers, x);
            var committed := WinnerChanges(base, logs, winners, x);
            Outcome(logs, winners, losers, v, lsn0, lsn1, x) == committed <==>
              (f.Some? && f.value.lsn <= lsn1 ==> Before(f.value) == committed)
  {
    var f := FirstLoser(logs, losers, x);
    UndoIsFirstLoser(logs, losers, RedoOutcome(logs, winners, v, lsn0, x), lsn1, x);
    if f.None? || f.value.lsn > lsn1 { RedoReaches(base, logs, winners, losers, lsn0, x); }
  }

  /** Recovery gives x its committed value from every mix of flushed pages
      if and only if the oldest loser change of x recorded that value. */
  lemma RecoveryAlwaysRight(base: Place -> Option<Bytes>, logs: seq<LogRecord>, winners: iset<int>, losers: iset<int>,
                            x: Place)
    requires LsnsIncrease(logs) && Decided(logs, winners, losers)
    ensures LoserRestores(base, logs, winners, losers, x) <==>
            forall v, lsn0, lsn1 :: lsn0 <= lsn1 && Holds(base, logs, losers, v, lsn0, x) ==>
              Outcome(logs, winners, losers, v, lsn0, lsn1, x) == WinnerChanges(base, logs, winners, x)
  {
    forall v, lsn0, lsn1 | lsn0 <= lsn1 && Holds(base, logs, losers, v, lsn0, x)
      ensures LoserRestores(base, logs, winners, losers, x) ==>
                Outcome(logs, winners, losers, v, lsn0, lsn1, x) == WinnerChanges(base, logs, winners, x)
    {
      RecoveryExact(base, logs, winners, losers, v, lsn0, lsn1, x);
    }
    var f := FirstLoser(logs, losers, x);
    if f.Some? {
      RecoveryExact(base, logs, winners, losers, None, f.value.lsn, f.value.lsn, x);
      assert Holds(base, logs, losers, None, f.value.lsn, x);
    }
  }

  /** A second recovery, from whatever page LSNs the first one left, changes nothing. */
  lemma RecoveryIdempotent(base: Place -> Option<Bytes>, logs: seq<LogRecord>, winners: iset<int>, losers: iset<int>,
                           lsn0: int, lsn1: int, x: Place)
    requires LsnsIncrease(logs) && LoserRestores(base, logs, winners, losers, x)
    ensures Outcome(logs, winners, losers, WinnerChanges(base, logs, winners, x), lsn0, lsn1, x) ==
              WinnerChanges(base, logs, winners, x)
  {
    var v := WinnerChanges(base, logs, winners, x);
    RedoChoices(base, logs, winners, v, lsn0, x);
    UndoIsFirstLoser(logs, losers, RedoOutcome(logs, winners, v, lsn0, x), lsn1, x);
  }

  // ---------- strict execution is enough ----------

  lemma {:induction false} FirstLoserAt(logs: seq<LogRecord>, losers: iset<int>, x: Place) returns (i: nat)
    requires FirstLoser(logs, losers, x).Some?
    ensures i < |logs| && logs[i] == FirstLoser(logs, losers, x).value && FirstLoser(logs[..i], losers, x) == None
  {
    var rest := logs[..|logs| - 1];
    if FirstLoser(rest, losers, x).Some? {
      i := FirstLoserAt(rest, losers, x);
      assert rest[..i] == logs[..i];
    } else {
      i := |logs| - 1;
    }
  }

  lemma {:induction false} NoWinnerAfter(base: Place -> Option<Bytes>, logs: seq<LogRecord>, winners: iset<int>,
                                         x: Place, i: nat)
    requires i <= |logs| && forall j :: i <= j < |logs| && Changes(logs[j], x) ==> logs[j].tid !in winners
    ensures WinnerChanges(base, logs, winners, x) == WinnerChanges(base, logs[..i], winners, x)
  {
    if i == |logs| {
      assert logs[..i] == logs;
    } else {
      var rest := logs[..|logs| - 1];
      assert rest[..i] == logs[..i];
      NoWinnerAfter(base, rest, winners, x, i);
    }
  }

  /** If nobody writes a record after a transaction that did not commit, and each change recorded the
      value that it replaced, then recovery is right for every record. */
  lemma StrictRestores(base: Place -> Option<Bytes>, logs: seq<LogRecord>, winners: iset<int>, losers: iset<int>,
                       x: Place)
    requires BeforeImages(base, logs) && Strict(logs) && Decided(logs, winners, losers)
    requires forall tid :: tid in winners <==> Committed(logs, tid)
    ensures LoserRestores(base, logs, winners, losers, x)
  {
    if FirstLoser(logs, losers, x).Some? {
      var i := FirstLoserAt(logs, losers, x);
      WithoutLosers(base, logs[..i], winners, losers, x);
      NoWinnerAfter(base, logs, winners, x, i);
    }
  }

  // ---------- a log that breaks recovery ----------

  /** An aborted transaction counts as a loser. If another one commits a change of the same record
      after the abort, undo puts the aborted transaction's old value back. */
  lemma AbortThenCommitLosesUpdate()
    ensures var x := Place(PageId("t", 1), 0);
            var logs := [Update(0, 1, x, [1], [2]), Abort(1, 1), Update(2, 2, x, [1], [3]), Commit(3, 2)];
            && LsnsIncrease(logs) && !Strict(logs)
            && WinnerChanges(y => Some([1]), logs, iset{2}, x) == Some([3])
            && Outcome(logs, iset{2}, iset{1}, Some([3]), 2, 2, x) == Some([1])
  {
    var x := Place(PageId("t", 1), 0);
    var logs := [Update(0, 1, x, [1], [2]), Abort(1, 1), Update(2, 2, x, [1], [3]), Commit(3, 2)];
    assert logs[..3] == [logs[0], logs[1], logs[2]] && logs[..3][..2] == [logs[0], logs[1]];
    assert logs[..2][..1] == [logs[0]];
    assert !Committed(logs, 1);
    assert Changes(logs[2], logs[0].place);
    UndoIsFirstLoser(logs, iset{1}, RedoOutcome(logs, iset{2}, Some([3]), 2, x), 2, x);
    assert FirstLoser([logs[0]], iset{1}, x) == Some(logs[0]);
    assert FirstLoser([logs[0], logs[1]], iset{1}, x) == Some(logs[0]);
    assert FirstLoser(logs[..3], iset{1}, x) == Some(logs[0]);
  }

  // ---------- redo of any log ----------

  predicate RedoneOn(r: LogRecord, winners: iset<int>, p: PageId)
  {
    IsChange(r) && r.place.page == p && r.tid in winners
  }

  /** The LSN of an existing page after redo. */
  ghost function Reached(logs: seq<LogRecord>, winners: iset<int>, lsn: int, p: PageId): int
  {
    if logs == [] then lsn
    else
      var last, before := logs[|logs| - 1], Reached(logs[..|logs| - 1], winners, lsn, p);
      if RedoneOn(last, winners, p) && last.lsn > before then last.lsn else before
  }

  /** The value of x on an existing page after redo: a change counts if its LSN is above all that the page has
      reached. */
  ghost function Replayed(logs: seq<LogRecord>, winners: iset<int>, v: Option<Bytes>, lsn: int, x: Place): Option<Bytes>
  {
    if logs == [] then v
    else
      var last, rest := logs[|logs| - 1], logs[..|logs| - 1];
      if Changes(last, x) && last.tid in winners && last.lsn > Reached(rest, winners, lsn, x.page) then After(last)
      else Replayed(rest, winners, v, lsn, x)
  }

  /** What a page has reached is its LSN or that of a redone change, and no less than either. */
  lemma {:induction false} ReachedIsMax(logs: seq<LogRecord>, winners: iset<int>, lsn: int, p: PageId)
    ensures var m := Reached(logs, winners, lsn, p);
            && lsn <= m && (forall i :: 0 <= i < |logs| && RedoneOn(logs[i], winners, p) ==> logs[i].lsn <= m)
            && (m == lsn || exists i :: 0 <= i < |logs| && RedoneOn(logs[i], winners, p) && logs[i].lsn == m)
  {
    if logs != [] {
      var rest := logs[..|logs| - 1];
      ReachedIsMax(rest, winners, lsn, p);
      var m := Reached(rest, winners, lsn, p);
      if m != lsn {
        var i :| 0 <= i < |rest| && RedoneOn(rest[i], winners, p) && rest[i].lsn == m;
        assert logs[i] == rest[i];
      }
    }
  }

  predicate ChangesOn(r: LogRecord, p: PageId)
  {
    IsChange(r) && r.place.page == p
  }

  /** The LSN of a page that holds the changes of the log: that of the last one. */
  ghost function PageLsn(logs: seq<LogRecord>, p: PageId): int
  {
    if logs == [] then INVALID_LSN
    else if ChangesOn(logs[|logs| - 1], p) then logs[|logs| - 1].lsn
    else PageLsn(logs[..|logs| - 1], p)
  }

  ghost predicate AllWin(logs: seq<LogRecord>, winners: iset<int>, p: PageId)
  {
    forall r <- logs :: ChangesOn(r, p) ==> r.tid in winners
  }

  /** The page was flushed after the first k records: redo applies the changes behind these, and no other. */
  ghost predicate RedoesRest(logs: seq<LogRecord>, winners: iset<int>, p: PageId, k: nat)
    requires k <= |logs|
  {
    forall i {:trigger logs[i]} :: 0 <= i < |logs| && ChangesOn(logs[i], p) ==>
      (k <= i <==> logs[i].lsn > Reached(logs[..i], winners, PageLsn(logs[..k], p), p))
  }

  /** LSNs increase along the log, on one page. */
  ghost predicate IncreaseOn(logs: seq<LogRecord>, p: PageId)
  {
    forall i, j :: 0 <= i < j < |logs| && ChangesOn(logs[i], p) && ChangesOn(logs[j], p) ==> logs[i].lsn < logs[j].lsn
  }

  lemma {:induction false} PageLsnAt(logs: seq<LogRecord>, p: PageId)
    ensures var m := PageLsn(logs, p);
            || (m == INVALID_LSN && forall r <- logs :: !ChangesOn(r, p))
            || exists i :: 0 <= i < |logs| && ChangesOn(logs[i], p) && m == logs[i].lsn &&
                           forall j :: i < j < |logs| ==> !ChangesOn(logs[j], p)
  {
    if logs != [] && !ChangesOn(logs[|logs| - 1], p) {
      var rest := logs[..|logs| - 1];
      PageLsnAt(rest, p);
      if exists r :: r in rest && ChangesOn(r, p) {
        var i :| 0 <= i < |rest| && ChangesOn(rest[i], p) && PageLsn(rest, p) == rest[i].lsn &&
                 forall j :: i < j < |rest| ==> !ChangesOn(rest[j], p);
        assert logs[i] == rest[i];
        forall j | i < j < |logs| ensures !ChangesOn(logs[j], p) { if j < |rest| { assert logs[j] == rest[j]; } }
      }
    }
  }

  lemma RedoesBehind(logs: seq<LogRecord>, winners: iset<int>, p: PageId, k: nat, i: nat)
    requires LsnsValid(logs) && AllWin(logs, winners, p) && IncreaseOn(logs, p) && k <= |logs|
    requires i < |logs| && ChangesOn(logs[i], p)
    ensures k <= i <==> logs[i].lsn > Reached(logs[..i], winners, PageLsn(logs[..k], p), p)
  {
    var lsn := PageLsn(logs[..k], p);
    PageLsnAt(logs[..k], p);
    ReachedIsMax(logs[..i], winners, lsn, p);
    if k <= i {
      forall j | 0 <= j < i && RedoneOn(logs[..i][j], winners, p) ensures logs[..i][j].lsn < logs[i].lsn {}
    } else {
      assert logs[..k][i] in logs[..k];
      var j :| 0 <= j < k && ChangesOn(logs[..k][j], p) && lsn == logs[..k][j].lsn &&
               forall l :: j < l < k ==> !ChangesOn(logs[..k][l], p);
      assert i <= j && logs[i].lsn <= logs[j].lsn;
    }
  }

  /** On a page that only winners changed, redo applies exactly the changes that the page lacks, wherever in the log the
      page was flushed, if and only if the LSNs of the changes on that page increase along the log. */
  lemma RedoExact(logs: seq<LogRecord>, winners: iset<int>, p: PageId)
    requires LsnsValid(logs) && AllWin(logs, winners, p)
    ensures (forall k :: 0 <= k <= |logs| ==> RedoesRest(logs, winners, p, k)) <==> IncreaseOn(logs, p)
  {
    if IncreaseOn(logs, p) {
      forall k, i | 0 <= k <= |logs| && 0 <= i < |logs| && ChangesOn(logs[i], p)
        ensures k <= i <==> logs[i].lsn > Reached(logs[..i], winners, PageLsn(logs[..k], p), p)
      {
        RedoesBehind(logs, winners, p, k, i);
      }
    } else {
      var i, j :| 0 <= i < j < |logs| && ChangesOn(logs[i], p) && ChangesOn(logs[j], p) && logs[i].lsn >= logs[j].lsn;
      assert PageLsn(logs[..i + 1], p) == logs[i].lsn;
      ReachedIsMax(logs[..j], winners, logs[i].lsn, p);
      assert !RedoesRest(logs, winners, p, i + 1);
    }
  }

  /** Where redo applies what the page lacks, it brings every record of the page up to date. */
  lemma {:induction false} RedoCatchesUp(base: Place -> Option<Bytes>, logs: seq<LogRecord>, winners: iset<int>, k: nat,
                                         x: Place, lsn: int)
    requires k <= |logs| && AllWin(logs, winners, x.page)
    requires forall i {:trigger logs[i]} :: 0 <= i < |logs| && ChangesOn(logs[i], x.page) ==>
               (k <= i <==> logs[i].lsn > Reached(logs[..i], winners, lsn, x.page))
    ensures Replayed(logs, winners, AllChanges(base, logs[..k], x), lsn, x) == AllChanges(base, logs, x)
  {
    if logs == [] {
    } else if k == |logs| {
      assert logs[..k] == logs;
      NothingToReplay(logs, winners, AllChanges(base, logs, x), lsn, x);
    } else {
      var rest := logs[..|logs| - 1];
      assert rest[..k] == logs[..k];
      forall i {:trigger rest[i]} | 0 <= i < |rest| ensures rest[i] == logs[i] && rest[..i] == logs[..i] {}
      RedoCatchesUp(base, rest, winners, k, x, lsn);
    }
  }

  lemma {:induction false} NothingToReplay(logs: seq<LogRecord>, winners: iset<int>, v: Option<Bytes>, lsn: int,
                                           x: Place)
    requires forall i {:trigger logs[i]} :: 0 <= i < |logs| && ChangesOn(logs[i], x.page) ==>
               logs[i].lsn <= Reached(logs[..i], winners, lsn, x.page)
    ensures Replayed(logs, winners, v, lsn, x) == v
  {
    if logs != [] {
      var rest := logs[..|logs| - 1];
      forall i {:trigger rest[i]} | 0 <= i < |rest| ensures rest[i] == logs[i] && rest[..i] == logs[..i] {}
      NothingToReplay(rest, winners, v, lsn, x);
    }
  }

  // ---------- the recovery manager ----------

  ghost predicate Fits(r: LogRecord, numPages: map<string, int>, slotsPerPage: map<string, int>)
  {
    IsChange(r) ==>
      && r.place.page.table in numPages && RM_FIRST_RECORD_PAGE <= r.place.page.pageNo
      && r.place.page.table in slotsPerPage && 0 <= r.place.slot < slotsPerPage[r.place.page.table]
  }

  ghost function AsISet(s: set<int>): iset<int>
  {
    iset t | t in s
  }

  /** Only the record at x may differ. */
  ghost predicate SameBut(pages: map<PageId, Page>, pages': map<PageId, Page>, x: Place)
  {
    && (forall y: Place :: y != x ==> ValueAt(pages', y) == ValueAt(pages, y))
    && (forall p: PageId :: LsnOf(pages', p) == LsnOf(pages, p))
  }

  class RecoveryManager {
    var logs: seq<LogRecord>
    var committed: set<int>
    var active: set<int>
    var undoLogs: seq<LogRecord>
    var pages: map<PageId, Page>
    var numPages: map<string, int>
    const slotsPerPage: map<string, int>

    constructor (log: seq<LogRecord>, tablePages: map<PageId, Page>, counts: map<string, int>, slots: map<string, int>)
      ensures logs == log && pages == tablePages && numPages == counts && slotsPerPage == slots
    {
      logs, pages, numPages, slotsPerPage := log, tablePages, counts, slots;
      committed, active, undoLogs := {}, {}, [];
    }

    /** The pages of a table are numbered from 1 to its page count. */
    ghost predicate TablesOk()
      reads this
    {
      && (forall tab <- numPages :: RM_FIRST_RECORD_PAGE <= numPages[tab])
      && (forall p: PageId :: p in pages <==>
          p.table in numPages && RM_FIRST_RECORD_PAGE <= p.pageNo < numPages[p.table])
    }

    ghost predicate Ready()
      reads this
    {
      TablesOk() && forall r <- logs :: Fits(r, numPages, slotsPerPage)
    }

    /** analyze, without reading the log file: the committed and the active transactions,
        and the changes of the active ones, newest first. */
    method Analyze()
      modifies this`committed, this`active, this`undoLogs
      ensures forall tid :: tid in committed <==> Committed(logs, tid)
      ensures forall tid :: tid in active <==> Active(logs, tid)
      ensures CommitIsFinal(logs) ==> Decided(logs, AsISet(committed), AsISet(active))
      ensures undoLogs == Losing(logs, AsISet(active))
    {
      CollectTransactions();
      CollectUndo();
    }

    method CollectTransactions()
      modifies this`committed, this`active
      ensures Analyzed(logs, logs, committed, active)
    {
      committed, active := {}, {};
      for i := 0 to |logs|
        invariant Analyzed(logs, logs[..i], committed, active)
      {
        var record := logs[i];
        AnalyzedStep(logs, i, committed, active);
        if record.Begin? || record.Abort? {
          active := active + {record.tid};
        } else if record.Commit? {
          active := active - {record.tid};
          committed := committed + {record.tid};
        } else if IsChange(record) && record.tid !in committed {
          active := active + {record.tid};
        }
      }
      assert logs[..|logs|] == logs;
    }

    method CollectUndo()
      modifies this`undoLogs
      ensures undoLogs == Losing(logs, AsISet(active))
    {
      undoLogs := [];
      assert logs[..|logs|] == logs;
      for i := |logs| downto 0
        invariant undoLogs + Losing(logs[..i], AsISet(active)) == Losing(logs, AsISet(active))
      {
        LosingStep(logs, AsISet(active), i, undoLogs);
        if IsChange(logs[i]) && logs[i].tid in active {
          undoLogs := undoLogs + [logs[i]];
        }
      }
    }

    /** page_has_log: the page carries an LSN at or above the record's. */
    method PageHasLog(p: PageId, lsn: int) returns (has: bool)
      requires TablesOk() && p.table in numPages && 0 <= lsn
      ensures has <==> lsn <= LsnOf(pages, p)
    {
      if p.pageNo < RM_FIRST_RECORD_PAGE || p.pageNo >= numPages[p.table] {
        return false;
      }
      has := pages[p].lsn != INVALID_LSN && pages[p].lsn >= lsn;
    }

    /** ensure_record_slot: new pages are empty and carry no LSN. */
    method EnsureRecordSlot(p: PageId)
      requires TablesOk() && p.table in numPages && RM_FIRST_RECORD_PAGE <= p.pageNo
      modifies this`pages, this`numPages
      ensures TablesOk() && numPages.Keys == old(numPages.Keys) && p in pages && old(pages.Keys) <= pages.Keys
      ensures forall y: Place :: ValueAt(pages, y) == ValueAt(old(pages), y)
      ensures forall q: PageId :: LsnOf(pages, q) == LsnOf(old(pages), q)
    {
      while p.pageNo >= numPages[p.table]
        invariant TablesOk() && numPages.Keys == old(numPages.Keys) && old(pages.Keys) <= pages.Keys
        invariant forall y: Place :: ValueAt(pages, y) == ValueAt(old(pages), y)
        invariant forall q: PageId :: LsnOf(pages, q) == LsnOf(old(pages), q)
        decreases p.pageNo - numPages[p.table]
      {
        var n := numPages[p.table];
        pages := pages[PageId(p.table, n) := Page(INVALID_LSN, map[])];
        numPages := numPages[p.table := n + 1];
      }
    }

    /** The record part of redo_insert and redo_update: the slot holds the value, wherever it started. */
    method PutRecord(x: Place, value: Bytes)
      requires TablesOk() && x.page.table in numPages && RM_FIRST_RECORD_PAGE <= x.page.pageNo
      requires x.page.table in slotsPerPage && 0 <= x.slot < slotsPerPage[x.page.table]
      modifies this`pages, this`numPages
      ensures TablesOk() && numPages.Keys == old(numPages.Keys) && x.page in pages && old(pages.Keys) <= pages.Keys
      ensures ValueAt(pages, x) == Some(value) && SameBut(old(pages), pages, x)
    {
      EnsureRecordSlot(x.page);
      var page := pages[x.page];
      pages := pages[x.page := page.(records := page.records[x.slot := value])];
    }

    /** redo_delete: nothing happens when there is no such record. */
    method DropRecord(x: Place)
      requires TablesOk()
      modifies this`pages
      ensures TablesOk() && pages.Keys == old(pages.Keys)
      ensures ValueAt(pages, x) == None && SameBut(old(pages), pages, x)
    {
      if x.page !in pages || x.slot !in pages[x.page].records {
        return;
      }
      var page := pages[x.page];
      pages := pages[x.page := page.(records := page.records - {x.slot})];
    }

    method SetPageLsn(p: PageId, lsn: int)
      requires TablesOk() && p in pages
      modifies this`pages
      ensures TablesOk() && pages.Keys == old(pages.Keys)
      ensures forall y: Place :: ValueAt(pages, y) == ValueAt(old(pages), y)
      ensures forall q: PageId :: LsnOf(pages, q) == if q == p && lsn != INVALID_LSN then lsn else LsnOf(old(pages), q)
    {
      if lsn == INVALID_LSN {
        return;
      }
      pages := pages[p := pages[p].(lsn := lsn)];
    }

    /** apply_redo. The deletion of a record on a page that does not exist leaves no LSN behind. */
    method ApplyRedo(r: LogRecord)
      requires TablesOk() && Fits(r, numPages, slotsPerPage) && 0 <= r.lsn
      modifies this`pages, this`numPages
      ensures TablesOk() && numPages.Keys == old(numPages.Keys)
      ensures IsChange(r) ==> RedoStep(old(pages), pages, r)
      ensures IsChange(r) && LsnOf(old(pages), r.place.page) < r.lsn ==>
                && (r.Insert? ==> ValueAt(pages, r.place) == Some(r.value))
                && (r.Delete? ==> ValueAt(pages, r.place) == None)
                && (r.Update? ==> ValueAt(pages, r.place) == Some(r.after))
      ensures !IsChange(r) ==> pages == old(pages)
    {
      if !IsChange(r) {
        return;
      }
      var has := PageHasLog(r.place.page, r.lsn);
      if has {
        return;
      }
      match r {
        case Insert(_, _, x, v) => PutRecord(x, v);
        case Delete(_, _, x, _) => DropRecord(x);
        case Update(_, _, x, _, v) => PutRecord(x, v);
      }
      if r.place.page in pages {
        SetPageLsn(r.place.page, r.lsn);
      }
    }

    /** redo: the winners' records, oldest first. */
    method Redo()
      requires Ready() && LsnsValid(logs)
      modifies this`pages, this`numPages
      ensures Ready() && Replays(logs, AsISet(committed), old(pages), pages)
      ensures LsnsIncrease(logs) ==> Redone(logs, AsISet(committed), old(pages), pages)
    {
      ghost var inOrder := LsnsIncrease(logs);
      for i := 0 to |logs|
        invariant Ready()
        invariant Replays(logs[..i], AsISet(committed), old(pages), pages)
        invariant inOrder ==> Redone(logs[..i], AsISet(committed), old(pages), pages)
      {
        ReplaysStep(logs, i, AsISet(committed), old(pages), pages);
        if inOrder { RedoneStep(logs, i, AsISet(committed), old(pages), pages); }
        if logs[i].tid in committed {
          ApplyRedo(logs[i]);
        }
      }
      assert logs[..|logs|] == logs;
    }

    method ApplyUndo(r: LogRecord)
      requires TablesOk() && Fits(r, numPages, slotsPerPage) && IsChange(r) && 0 <= r.lsn
      modifies this`pages, this`numPages
      ensures TablesOk() && numPages.Keys == old(numPages.Keys)
      ensures UndoStep(old(pages), pages, r)
      ensures r.lsn <= LsnOf(old(pages), r.place.page) ==>
                && (r.Insert? ==> ValueAt(pages, r.place) == None)
                && (r.Delete? ==> ValueAt(pages, r.place) == Some(r.value))
                && (r.Update? ==> ValueAt(pages, r.place) == Some(r.before))
    {
      var has := PageHasLog(r.place.page, r.lsn);
      if !has {
        return;
      }
      match r {
        case Insert(_, _, x, _) => DropRecord(x);
        case Delete(_, _, x, v) => PutRecord(x, v);
        case Update(_, _, x, v, _) => PutRecord(x, v);
      }
      SetPageLsn(r.place.page, r.lsn);
    }

    method UndoNext(i: nat, ghost start: map<PageId, Page>, ghost inOrder: bool)
      requires Ready() && i < |undoLogs| && undoLogs[i] in logs && IsChange(undoLogs[i]) && 0 <= undoLogs[i].lsn
      requires inOrder ==> Descending(undoLogs) && Undone(undoLogs[..i], start, pages)
      modifies this`pages, this`numPages
      ensures Ready() && (inOrder ==> Undone(undoLogs[..i + 1], start, pages))
    {
      if inOrder { UndoneStep(undoLogs, i, start, pages); }
      ApplyUndo(undoLogs[i]);
    }

    /** undo: the losers' changes, newest first. Each one lowers the page LSN to its own. */
    method Undo()
      requires Ready() && LsnsValid(logs) && undoLogs == Losing(logs, AsISet(active))
      modifies this`pages, this`numPages
      ensures Ready() && (undoLogs == [] ==> pages == old(pages))
      ensures LsnsIncrease(logs) ==> Undone(undoLogs, old(pages), pages)
    {
      LosingFromLog(logs, AsISet(active));
      ghost var inOrder := LsnsIncrease(logs);
      if inOrder { LosingDescends(logs, AsISet(active)); }
      for i := 0 to |undoLogs|
        invariant Ready() && (i == 0 ==> pages == old(pages))
        invariant inOrder ==> Undone(undoLogs[..i], old(pages), pages)
      {
        UndoNext(i, old(pages), inOrder);
      }
      assert undoLogs[..|undoLogs|] == undoLogs;
    }

    /** analyze; redo; undo, as the server does on start-up. */
    method Recover(ghost base: Place -> Option<Bytes>)
      requires Ready() && LsnsValid(logs)
      modifies this
      ensures Ready() && logs == old(logs) && forall tid :: tid in active <==> Active(logs, tid)
      ensures CommitIsFinal(logs) ==> Decided(logs, Winners(logs), AsISet(active))
      ensures OneLifetime(logs) ==> TablesRecovered(base, logs, AsISet(active), old(pages), pages)
      // Whatever the log, records on existing pages are replayed when there is nothing to undo.
      ensures Losing(logs, AsISet(active)) == [] ==> Replays(logs, Winners(logs), old(pages), pages)
    {
      Analyze();
      ghost var winners, losers := AsISet(committed), AsISet(active);
      assert winners == Winners(logs);
      ghost var pages0 := pages;
      Redo();
      ghost var pages1 := pages;
      Undo();
      if OneLifetime(logs) { AllRecovered(base, logs, winners, losers, pages0, pages1, pages); }
    }
  }

  /** LSNs and transaction ids are those of one run of the server. */
  ghost predicate OneLifetime(logs: seq<LogRecord>)
  {
    LsnsIncrease(logs) && CommitIsFinal(logs)
  }

  ghost predicate TablesRecovered(base: Place -> Option<Bytes>, logs: seq<LogRecord>, losers: iset<int>,
                                  start: map<PageId, Page>, pages: map<PageId, Page>)
  {
    var winners := Winners(logs);
    // A record on a page that follows the log ends with its committed value if its oldest loser change recorded it.
    && (forall x: Place ::
        Holds(base, logs, losers, ValueAt(start, x), LsnOf(start, x.page), x) &&
        LoserRestores(base, logs, winners, losers, x) ==>
          ValueAt(pages, x) == WinnerChanges(base, logs, winners, x))
    && (BeforeImages(base, logs) && Strict(logs) ==>
        // Under strict execution that is every record, from any mix of flushed pages.
        && (PagesFollowLog(base, logs, losers, start) ==>
            forall x: Place :: ValueAt(pages, x) == WinnerChanges(base, logs, winners, x))
        // Run again on its own result, whatever LSNs it left, recovery changes no record.
        && ((forall x: Place :: ValueAt(start, x) == WinnerChanges(base, logs, winners, x)) ==>
            forall x: Place :: ValueAt(pages, x) == ValueAt(start, x)))
  }

  lemma AllRecovered(base: Place -> Option<Bytes>, logs: seq<LogRecord>, winners: iset<int>, losers: iset<int>,
                     start: map<PageId, Page>, redone: map<PageId, Page>, pages: map<PageId, Page>)
    requires LsnsIncrease(logs) && Decided(logs, winners, losers) && winners == Winners(logs)
    requires Redone(logs, winners, start, redone) && Undone(Losing(logs, losers), redone, pages)
    ensures TablesRecovered(base, logs, losers, start, pages)
  {
    forall x: Place
      ensures RecordRecovered(base, logs, winners, losers, start, pages, x)
      ensures BeforeImages(base, logs) && Strict(logs) ==> LoserRestores(base, logs, winners, losers, x)
    {
      RecoveredRecord(base, logs, winners, losers, start, redone, pages, x);
      if BeforeImages(base, logs) && Strict(logs) { StrictRestores(base, logs, winners, losers, x); }
    }
    if BeforeImages(base, logs) && Strict(logs) {
      forall x: Place | ValueAt(start, x) == WinnerChanges(base, logs, winners, x)
        ensures ValueAt(pages, x) == ValueAt(start, x)
      {
        assert RecordRecovered(base, logs, winners, losers, start, pages, x);
      }
    }
  }

  /** What recovery does for a record whose oldest loser change recorded the committed value. */
  ghost predicate RecordRecovered(base: Place -> Option<Bytes>, logs: seq<LogRecord>, winners: iset<int>,
                                  losers: iset<int>, start: map<PageId, Page>, pages: map<PageId, Page>, x: Place)
  {
    var committed := WinnerChanges(base, logs, winners, x);
    LoserRestores(base, logs, winners, losers, x) ==>
      && (Holds(base, logs, losers, ValueAt(start, x), LsnOf(start, x.page), x) ==> ValueAt(pages, x) == committed)
      && (ValueAt(start, x) == committed ==> ValueAt(pages, x) == committed)
  }

  lemma RecoveredRecord(base: Place -> Option<Bytes>, logs: seq<LogRecord>, winners: iset<int>, losers: iset<int>,
                        start: map<PageId, Page>, redone: map<PageId, Page>, pages: map<PageId, Page>, x: Place)
    requires LsnsIncrease(logs) && Decided(logs, winners, losers) && LsnOf(start, x.page) <= LsnOf(redone, x.page)
    requires ValueAt(pages, x) ==
             Outcome(logs, winners, losers, ValueAt(start, x), LsnOf(start, x.page), LsnOf(redone, x.page), x)
    ensures RecordRecovered(base, logs, winners, losers, start, pages, x)
  {
    var v, lsn0, lsn1 := ValueAt(start, x), LsnOf(start, x.page), LsnOf(redone, x.page);
    if LoserRestores(base, logs, winners, losers, x) {
      if Holds(base, logs, losers, v, lsn0, x) { RecoveryExact(base, logs, winners, losers, v, lsn0, lsn1, x); }
      RecoveryIdempotent(base, logs, winners, losers, lsn0, lsn1, x);
    }
  }

  lemma LosingStep(logs: seq<LogRecord>, losers: iset<int>, i: nat, u: seq<LogRecord>)
    requires i < |logs|
    ensures u + Losing(logs[..i + 1], losers) ==
            (if IsChange(logs[i]) && logs[i].tid in losers then u + [logs[i]] else u) + Losing(logs[..i], losers)
  {
    assert logs[..i + 1][..i] == logs[..i];
  }

  /** The first part of the log, split into committed and active transactions. */
  ghost predicate Analyzed(logs: seq<LogRecord>, part: seq<LogRecord>, committed: set<int>, active: set<int>)
  {
    && (forall tid :: tid in committed <==> Committed(part, tid))
    && (forall tid :: tid in active <==> Active(part, tid))
    && (forall r <- part :: IsChange(r) ==> r.tid in committed || r.tid in active)
    && (CommitIsFinal(logs) ==> committed !! active)
  }

  lemma AnalyzedStep(logs: seq<LogRecord>, i: nat, committed: set<int>, active: set<int>)
    requires i < |logs| && Analyzed(logs, logs[..i], committed, active)
    ensures var r := logs[i];
            && (r.Begin? || r.Abort? ==> Analyzed(logs, logs[..i + 1], committed, active + {r.tid}))
            && (r.Commit? ==> Analyzed(logs, logs[..i + 1], committed + {r.tid}, active - {r.tid}))
            && (IsChange(r) && r.tid !in committed ==> Analyzed(logs, logs[..i + 1], committed, active + {r.tid}))
            && (r.Checkpoint? || (IsChange(r) && r.tid in committed) ==>
                Analyzed(logs, logs[..i + 1], committed, active))
  {
    var part := logs[..i + 1];
    assert part == logs[..i] + [logs[i]];
    forall tid ensures Committed(part, tid) <==> Committed(logs[..i], tid) || (logs[i].Commit? && logs[i].tid == tid) {
      if logs[i].Commit? && logs[i].tid == tid { assert logs[i] in part; }
    }
    if (logs[i].Begin? || logs[i].Abort?) && logs[i].tid in committed {
      var c :| c in logs[..i] && c.Commit? && c.tid == logs[i].tid;
      var j :| 0 <= j < i && logs[j] == c;
    }
  }

  /** One redone change. */
  ghost predicate RedoStep(pages: map<PageId, Page>, pages': map<PageId, Page>, r: LogRecord)
    requires IsChange(r)
  {
    var hit := LsnOf(pages, r.place.page) < r.lsn;
    && (forall y: Place :: ValueAt(pages', y) == if hit && y == r.place then After(r) else ValueAt(pages, y))
    && (forall p: PageId ::
        LsnOf(pages', p) == if hit && p == r.place.page && (p in pages || !r.Delete?) then r.lsn else LsnOf(pages, p))
    && pages.Keys <= pages'.Keys
  }

  /** The existing pages after redo of the first part of any log. */
  ghost predicate Replays(part: seq<LogRecord>, winners: iset<int>, start: map<PageId, Page>, pages: map<PageId, Page>)
  {
    && start.Keys <= pages.Keys
    && (forall p <- start :: LsnOf(pages, p) == Reached(part, winners, LsnOf(start, p), p))
    && (forall x: Place :: x.page in start ==>
        ValueAt(pages, x) == Replayed(part, winners, ValueAt(start, x), LsnOf(start, x.page), x))
  }

  lemma ReplaysStep(logs: seq<LogRecord>, i: nat, winners: iset<int>, start: map<PageId, Page>,
                    pages: map<PageId, Page>)
    requires i < |logs| && Replays(logs[..i], winners, start, pages)
    ensures !(IsChange(logs[i]) && logs[i].tid in winners) ==> Replays(logs[..i + 1], winners, start, pages)
    ensures IsChange(logs[i]) && logs[i].tid in winners ==>
              forall pages' :: RedoStep(pages, pages', logs[i]) ==> Replays(logs[..i + 1], winners, start, pages')
  {
    assert logs[..i + 1][..i] == logs[..i];
  }

  /** The pages after redo of the first part of the log. */
  ghost predicate Redone(part: seq<LogRecord>, winners: iset<int>, start: map<PageId, Page>, pages: map<PageId, Page>)
  {
    && (forall x: Place :: ValueAt(pages, x) == RedoOutcome(part, winners, ValueAt(start, x), LsnOf(start, x.page), x))
    && (forall p: PageId :: LsnOf(start, p) <= LsnOf(pages, p))
    && (forall p: PageId ::
        LsnOf(pages, p) == LsnOf(start, p) || (part != [] && LsnOf(pages, p) <= part[|part| - 1].lsn))
  }

  lemma RedoneStep(logs: seq<LogRecord>, i: nat, winners: iset<int>, start: map<PageId, Page>, pages: map<PageId, Page>)
    requires i < |logs| && LsnsIncrease(logs) && Redone(logs[..i], winners, start, pages)
    ensures !(IsChange(logs[i]) && logs[i].tid in winners) ==> Redone(logs[..i + 1], winners, start, pages)
    ensures IsChange(logs[i]) && logs[i].tid in winners ==>
              forall pages' :: RedoStep(pages, pages', logs[i]) ==> Redone(logs[..i + 1], winners, start, pages')
  {
    assert logs[..i + 1][..i] == logs[..i];
  }

  /** One undone change. */
  ghost predicate UndoStep(pages: map<PageId, Page>, pages': map<PageId, Page>, r: LogRecord)
    requires IsChange(r)
  {
    var hit := r.lsn <= LsnOf(pages, r.place.page);
    && (forall y: Place :: ValueAt(pages', y) == if hit && y == r.place then Before(r) else ValueAt(pages, y))
    && (forall p: PageId :: LsnOf(pages', p) == if hit && p == r.place.page then r.lsn else LsnOf(pages, p))
  }

  /** The pages after undo of the first part of the list. */
  ghost predicate Undone(part: seq<LogRecord>, start: map<PageId, Page>, pages: map<PageId, Page>)
  {
    && (forall x: Place :: ValueAt(pages, x) == UndoOutcome(part, ValueAt(start, x), LsnOf(start, x.page), x))
    && (forall p: PageId :: LsnOf(pages, p) <= LsnOf(start, p))
    && (forall p: PageId ::
        LsnOf(pages, p) == LsnOf(start, p) || (part != [] && part[|part| - 1].lsn <= LsnOf(pages, p)))
  }

  ghost predicate Descending(undo: seq<LogRecord>)
  {
    forall i, j :: 0 <= i < j < |undo| ==> undo[j].lsn < undo[i].lsn
  }

  lemma DescendingPush(undo: seq<LogRecord>, r: LogRecord)
    requires Descending(undo) && forall i :: 0 <= i < |undo| ==> undo[i].lsn < r.lsn
    ensures Descending([r] + undo)
  {
  }

  lemma {:induction false} LosingDescends(logs: seq<LogRecord>, losers: iset<int>)
    requires LsnsIncrease(logs)
    ensures Descending(Losing(logs, losers))
    ensures forall r <- Losing(logs, losers) :: r in logs && IsChange(r)
  {
    if logs != [] {
      var last, rest := logs[|logs| - 1], logs[..|logs| - 1];
      var losing := Losing(rest, losers);
      LosingDescends(rest, losers);
      forall i | 0 <= i < |losing| ensures losing[i].lsn < last.lsn
      {
        assert losing[i] in losing;
      }
      DescendingPush(losing, last);
    }
  }

  lemma {:induction false} LosingFromLog(logs: seq<LogRecord>, losers: iset<int>)
    ensures forall r <- Losing(logs, losers) :: r in logs && IsChange(r)
  {
    if logs != [] { LosingFromLog(logs[..|logs| - 1], losers); }
  }

  lemma UndoneStep(undo: seq<LogRecord>, i: nat, start: map<PageId, Page>, pages: map<PageId, Page>)
    requires i < |undo| && Descending(undo) && IsChange(undo[i]) && Undone(undo[..i], start, pages)
    ensures forall pages' :: UndoStep(pages, pages', undo[i]) ==> Undone(undo[..i + 1], start, pages')
  {
    assert undo[..i + 1][..i] == undo[..i];
  }
}
