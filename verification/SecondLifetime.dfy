/** A log that spans two runs of the server. Neither the LSN counter nor the transaction counter is restored on
    start-up, and the log file is never cut, so the second run's records reuse the LSNs and ids of the first one's. */
module SecondLifetime {
  import opened Common
  import opened Recovery

  const X: Place := Place(PageId("t", 1), 0)
  const OLD: Bytes := [1]
  const NEW: Bytes := [2]

  /** Each run commits one transaction: the first inserts a record, the second updates it. */
  const FIRST: seq<LogRecord> := [Begin(0, 0), Insert(1, 0, X, OLD), Commit(2, 0)]
  const SECOND: seq<LogRecord> := [Begin(0, 0), Update(1, 0, X, OLD, NEW), Commit(2, 0)]
  const LOG: seq<LogRecord> := [Begin(0, 0), Insert(1, 0, X, OLD), Commit(2, 0),
                                Begin(0, 0), Update(1, 0, X, OLD, NEW), Commit(2, 0)]

  /** The page as the first run left it: the insertion is on disk. */
  const PAGES: map<PageId, Page> := map[X.page := Page(1, map[0 := OLD])]

  lemma Prefixes()
    ensures LOG == FIRST + SECOND && !IncreaseOn(LOG, X.page) && LOG[..5][..4] == LOG[..4] && LOG[..4][..3] == LOG[..3]
    ensures LOG[..3][..2] == LOG[..2] && LOG[..2][..1] == LOG[..1] && LOG[..1][..0] == []
  {
    assert ChangesOn(LOG[1], X.page) && ChangesOn(LOG[4], X.page);
  }

  /** No transaction is active, so recovery has nothing to undo. */
  lemma NobodyActive(tid: int)
    ensures !Active(LOG, tid)
  {
    Prefixes();
    assert !Active(LOG[..1][..0], tid);
    if tid != 0 {
      assert !Active(LOG[..1], tid);
      assert !Active(LOG[..2], tid);
      assert !Active(LOG[..3], tid);
      assert !Active(LOG[..4], tid);
      assert !Active(LOG[..5], tid);
    }
  }

  lemma CommittedIsNew()
    ensures Winners(LOG) == iset{0} && WinnerChanges(y => None, LOG, Winners(LOG), X) == Some(NEW)
  {
    Prefixes();
    assert LOG[2] in LOG;
    assert Committed(LOG, 0);
    assert WinnerChanges(y => None, LOG[..5], Winners(LOG), X) == Some(NEW);
  }

  /** The page has reached LSN 1, so neither change is replayed. */
  lemma NothingReplayed()
    ensures Replayed(LOG, iset{0}, Some(OLD), 1, X) == Some(OLD)
  {
    Prefixes();
    forall i | 0 <= i <= 6 ensures Reached(LOG[..i], iset{0}, 1, X.page) >= 1 {
      ReachedIsMax(LOG[..i], iset{0}, 1, X.page);
    }
    assert LOG[..6] == LOG;
    assert Replayed(LOG[..1], iset{0}, Some(OLD), 1, X) == Some(OLD);
    assert Replayed(LOG[..2], iset{0}, Some(OLD), 1, X) == Some(OLD);
    assert Replayed(LOG[..3], iset{0}, Some(OLD), 1, X) == Some(OLD);
    assert Replayed(LOG[..4], iset{0}, Some(OLD), 1, X) == Some(OLD);
    assert Replayed(LOG[..5], iset{0}, Some(OLD), 1, X) == Some(OLD);
  }

  /** The second run committed NEW and crashed before the page was flushed. Recovery passes the update over, because the
      page's LSN, from the first run, is not below the update's. The committed value is lost. */
  method RecoverTwice() returns (m: RecoveryManager)
    ensures m.logs == LOG && WinnerChanges(y => None, LOG, Winners(LOG), X) == Some(NEW)
    ensures ValueAt(m.pages, X) == Some(OLD) && !IncreaseOn(LOG, X.page)
  {
    m := new RecoveryManager(LOG, PAGES, map["t" := 2], map["t" := 10]);
    m.Recover(y => None);
    Prefixes();
    CommittedIsNew();
    NothingReplayed();
    forall tid ensures tid !in AsISet(m.active) { NobodyActive(tid); }
    NoLosers(LOG, AsISet(m.active));
  }

  lemma {:induction false} NoLosers(logs: seq<LogRecord>, losers: iset<int>)
    requires forall tid :: tid !in losers
    ensures Losing(logs, losers) == []
  {
    if logs != [] { NoLosers(logs[..|logs| - 1], losers); }
  }
}
