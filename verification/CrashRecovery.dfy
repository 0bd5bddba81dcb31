/** A crash and the next start of the server, end to end: log manager threads, buffer pool, log file, loader, recovery.

    The file holds what the protocol had written, and any part of the bytes of the batch under way. */
module CrashRecovery {
  import opened Common
  import opened LogProtocol
  import opened WriteAheadRule
  import LogCodec
  import Recovery
  import TableRun

  // ---------- from bytes to records ----------

  function Name(table: seq<LogCodec.Byte>): string
  {
    seq(|table|, i requires 0 <= i < |table| => table[i] as char)
  }

  function PlaceOf(page: int, slot: int, table: seq<LogCodec.Byte>): Recovery.Place
  {
    Recovery.Place(Recovery.PageId(Name(table), page), slot)
  }

  /** A decoded record as recovery sees it. */
  function Parse(r: LogCodec.Record): (q: Recovery.LogRecord)
    ensures q.lsn == r.lsn && q.tid == r.tid
  {
    match r
    case Mark(BeginTxn, lsn, tid, _) => Recovery.Begin(lsn, tid)
    case Mark(CommitTxn, lsn, tid, _) => Recovery.Commit(lsn, tid)
    case Mark(AbortTxn, lsn, tid, _) => Recovery.Abort(lsn, tid)
    case Mark(CheckpointMark, lsn, tid, _) => Recovery.Checkpoint(lsn, tid)
    case Insert(lsn, tid, _, v, p, s, t) => Recovery.Insert(lsn, tid, PlaceOf(p, s, t), v)
    case Delete(lsn, tid, _, v, p, s, t) => Recovery.Delete(lsn, tid, PlaceOf(p, s, t), v)
    case Update(lsn, tid, _, v, w, p, s, t) => Recovery.Update(lsn, tid, PlaceOf(p, s, t), v, w)
  }

  /** The type number in the file decides what recovery sees. */
  lemma ParsedKind(r: LogCodec.Record)
    ensures var n, q := LogCodec.TypeCode(r), Parse(r);
            && (n == 0 <==> q.Update?) && (n == 1 <==> q.Insert?) && (n == 2 <==> q.Delete?) && (n == 3 <==> q.Begin?)
            && (n == 4 <==> q.Commit?) && (n == 5 <==> q.Abort?) && (n == 6 <==> q.Checkpoint?)
  {
  }

  /** Nothing that recovery needs is lost: only prev_lsn_ is not used. */
  lemma ParseInjective(a: LogCodec.Record, b: LogCodec.Record)
    requires Parse(a) == Parse(b)
    ensures a.(prevLsn := b.prevLsn) == b
  {
    if !a.Mark? {
      SameName(a.table, b.table);
    }
  }

  lemma SameName(a: seq<LogCodec.Byte>, b: seq<LogCodec.Byte>)
    requires Name(a) == Name(b)
    ensures a == b
  {
    assert |Name(a)| == |a| && |Name(b)| == |b|;
    forall i | 0 <= i < |a| ensures a[i] == b[i] { assert Name(a)[i] == Name(b)[i]; }
  }

  function ParseAll(rs: seq<LogCodec.Record>): (qs: seq<Recovery.LogRecord>)
    ensures |qs| == |rs| && forall i :: 0 <= i < |rs| ==> qs[i] == Parse(rs[i])
  {
    seq(|rs|, i requires 0 <= i < |rs| => Parse(rs[i]))
  }

  lemma ParsePrefix(rs: seq<LogCodec.Record>, n: nat)
    requires n <= |rs|
    ensures ParseAll(rs[..n]) == ParseAll(rs)[..n]
  {
  }

  // ---------- the log file after a crash ----------

  function Flat(rs: seq<Record>): Bytes
  {
    if rs == [] then [] else rs[0].body + Flat(rs[1..])
  }

  /** What was appended: the record with LSN i, serialized with that LSN. */
  ghost predicate Logged(issued: seq<Record>, recs: seq<LogCodec.Record>)
  {
    |recs| == |issued| &&
    forall i :: 0 <= i < |issued| ==>
      LogCodec.WellFormed(recs[i]) && recs[i].lsn == i && issued[i].body == LogCodec.Encode(recs[i])
  }

  ghost predicate CutAt(file: Bytes, written: Bytes, batch: Bytes, cut: nat)
  {
    cut <= |batch| && file == written + batch[..cut]
  }

  /** The crash came after the first `cut` bytes of the batch under way. */
  ghost predicate FileAfterCrash(file: Bytes, s: State, cut: nat)
  {
    CutAt(file, Flat(s.durable), Flat(s.inFlight), cut)
  }

  lemma {:induction false} FlatConcat(a: seq<Record>, b: seq<Record>)
    ensures Flat(a + b) == Flat(a) + Flat(b)
  {
    if a == [] {
      assert a + b == b;
    } else {
      assert (a + b)[1..] == a[1..] + b;
      FlatConcat(a[1..], b);
    }
  }

  /** Part of a record that was being written, or nothing. */
  ghost predicate TornRecord(tail: Bytes, rs: seq<Record>, n: nat)
  {
    tail == [] || (n < |rs| && tail < rs[n].body)
  }

  lemma CutInside(a: Bytes, b: Bytes, cut: nat)
    requires cut <= |a| + |b|
    ensures (a + b)[..cut] == if cut < |a| then a[..cut] else a + b[..cut - |a|]
  {
  }

  lemma Regroup(a: Bytes, b: Bytes, c: Bytes)
    ensures a + (b + c) == (a + b) + c
  {
  }

  /** Any first part of a batch is some complete records and a torn one. */
  lemma {:induction false} TornBatch(rs: seq<Record>, cut: nat) returns (n: nat, tail: Bytes)
    requires cut <= |Flat(rs)|
    ensures n <= |rs| && TornRecord(tail, rs, n) && Flat(rs)[..cut] == Flat(rs[..n]) + tail
  {
    n, tail := 0, Flat(rs)[..cut];
    if rs != [] {
      var first, rest := rs[0].body, rs[1..];
      CutInside(first, Flat(rest), cut);
      if cut >= |first| {
        n, tail := TornBatch(rest, cut - |first|);
        assert rs[..n + 1][1..] == rest[..n];
        Regroup(first, Flat(rest[..n]), tail);
        n := n + 1;
      }
    }
  }

  /** File and batch are the first records that were issued. */
  ghost predicate FirstIssued(s: State)
  {
    var d, f := |s.durable|, |s.inFlight|;
    d + f <= |s.issued| && s.durable == s.issued[..d] && s.inFlight == s.issued[d..d + f]
  }

  /** So it is while no write of the log has failed. */
  lemma InOrder(s: State)
    requires Inv(s) && s.lost == {}
    ensures FirstIssued(s)
    ensures s.persistLsn < |s.durable|
  {
    AllInOrder(s);
    PartsIssued(s);
    LastOfPrefix(s.issued, |s.durable|);
  }

  lemma PartsIssued(s: State)
    requires s.durable + s.inFlight + s.buffer == s.issued
    ensures FirstIssued(s)
  {
    ThreeParts(s.durable, s.inFlight, s.buffer);
  }

  lemma ThreeParts(a: seq<Record>, b: seq<Record>, c: seq<Record>)
    ensures a == (a + b + c)[..|a|] && b == (a + b + c)[|a|..|a| + |b|]
  {
  }

  lemma LastOfPrefix(issued: seq<Record>, d: nat)
    requires d <= |issued| && forall i :: 0 <= i < |issued| ==> issued[i].lsn == i
    ensures LastLsn(issued[..d]) == d - 1
  {
  }

  /** After a crash the log file holds the first n issued records and perhaps a torn one: all that was durable, and any
      part of the batch under way. */
  lemma FileIsPrefix(file: Bytes, s: State, cut: nat) returns (n: nat, tail: Bytes)
    requires FirstIssued(s) && FileAfterCrash(file, s, cut)
    ensures |s.durable| <= n <= |s.durable| + |s.inFlight|
    ensures TornRecord(tail, s.issued, n) && file == Flat(s.issued[..n]) + tail
  {
    var k;
    k, tail := TornBatch(s.inFlight, cut);
    n := |s.durable| + k;
    FlatConcat(s.durable, s.inFlight[..k]);
    assert s.durable + s.inFlight[..k] == s.issued[..n];
    Regroup(Flat(s.durable), Flat(s.inFlight[..k]), tail);
  }

  lemma {:induction false} FlatIsEncoded(rs: seq<Record>, recs: seq<LogCodec.Record>)
    requires |rs| == |recs| && forall i :: 0 <= i < |rs| ==> rs[i].body == LogCodec.Encode(recs[i])
    ensures Flat(rs) == LogCodec.EncodeAll(recs)
  {
    if rs != [] { FlatIsEncoded(rs[1..], recs[1..]); }
  }

  /** These bytes are what the loader expects. */
  lemma PrefixLoads(issued: seq<Record>, recs: seq<LogCodec.Record>, n: nat, tail: Bytes)
    returns (t: seq<LogCodec.Byte>)
    requires Logged(issued, recs) && n <= |issued| && TornRecord(tail, issued, n)
    ensures Flat(issued[..n]) == LogCodec.EncodeAll(recs[..n]) && forall r <- recs :: LogCodec.WellFormed(r)
    ensures t == tail && LogCodec.TornTail(t)
  {
    FlatIsEncoded(issued[..n], recs[..n]);
    t := if tail == [] then [] else LogCodec.Encode(recs[n])[..|tail|];
  }

  // ---------- what the surviving part of the log means ----------

  /** Strict execution: before another transaction changes a record, its last writer's commit is in the log. */
  ghost predicate StrictRun(logs: seq<Recovery.LogRecord>)
  {
    forall i, j :: 0 <= i < j < |logs| && Recovery.IsChange(logs[i]) && Recovery.Changes(logs[j], logs[i].place) ==>
      logs[i].tid != logs[j].tid ==> exists c :: i < c < j && logs[c] == Recovery.Commit(logs[c].lsn, logs[i].tid)
  }

  /** What the server logs in one lifetime. */
  ghost predicate Execution(t: TableRun.Records, logs: seq<Recovery.LogRecord>)
  {
    && (forall i :: 0 <= i < |logs| ==> logs[i].lsn == i)
    && TableRun.Executes(t, logs) && Recovery.CommitIsFinal(logs) && StrictRun(logs)
  }

  /** Every first part of a strict log can be recovered. */
  lemma PrefixRecovers(t: TableRun.Records, logs: seq<Recovery.LogRecord>, n: nat)
    requires n <= |logs| && Execution(t, logs)
    ensures Recovery.OneLifetime(logs[..n]) && TableRun.Executes(t, logs[..n]) && Recovery.Strict(logs[..n])
  {
    var part := logs[..n];
    forall i {:trigger part[i]} | 0 <= i < n ensures part[..i] == logs[..i] && part[i] == logs[i] {}
    forall i, j | 0 <= i < j < n && Recovery.IsChange(part[i]) && Recovery.Changes(part[j], part[i].place) &&
                  part[i].tid != part[j].tid
      ensures Recovery.Committed(part, part[i].tid)
    {
      assert part[i] == logs[i] && part[j] == logs[j];
      var c :| i < c < j && logs[c] == Recovery.Commit(logs[c].lsn, logs[i].tid);
      assert part[c] == logs[c];
    }
  }

  lemma {:induction false} UpToPrefix(logs: seq<Recovery.LogRecord>, n: nat, lsn: int)
    requires lsn < n <= |logs| && forall i :: 0 <= i < |logs| ==> logs[i].lsn == i
    ensures Recovery.UpTo(logs, lsn) == Recovery.UpTo(logs[..n], lsn)
    decreases |logs|
  {
    if n == |logs| {
      assert logs[..n] == logs;
    } else {
      UpToPrefix(logs[..|logs| - 1], n, lsn);
      assert logs[..|logs| - 1][..n] == logs[..n];
    }
  }

  // ---------- the pages on disk ----------

  lemma CommittedInPrefix(logs: seq<Recovery.LogRecord>, n: nat, tid: int)
    requires n <= |logs| && Recovery.Committed(logs[..n], tid)
    ensures Recovery.Committed(logs, tid)
  {
    var r :| r in logs[..n] && r.Commit? && r.tid == tid;
    assert r in logs;
  }

  /** Pages whose LSNs the log file has reached follow the log that survived. */
  lemma PagesFollowPrefix(t: TableRun.Records, logs: seq<Recovery.LogRecord>, n: nat,
                          pages: map<Recovery.PageId, Recovery.Page>)
    requires n <= |logs| && (forall i :: 0 <= i < |logs| ==> logs[i].lsn == i) && TableRun.PagesFollow(t, logs, pages)
    requires forall p: Recovery.PageId :: Recovery.LsnOf(pages, p) < n
    ensures TableRun.PagesFollow(t, logs[..n], pages)
  {
    var part := logs[..n];
    forall x: Recovery.Place
      ensures TableRun.RecordFollows(t, part, Recovery.ValueAt(pages, x), Recovery.LsnOf(pages, x.page), x)
    {
      var v, lsn := Recovery.ValueAt(pages, x), Recovery.LsnOf(pages, x.page);
      assert TableRun.RecordFollows(t, logs, v, lsn, x);
      UpToPrefix(logs, n, lsn);
      if v != TableRun.Lookup(TableRun.Final(t, Recovery.UpTo(logs, lsn)), x) {
        var i :| 0 <= i < |logs| && logs[i].lsn <= lsn && Recovery.Changes(logs[i], x) &&
                 !Recovery.Committed(logs, logs[i].tid);
        assert part[i] == logs[i];
        if Recovery.Committed(part, part[i].tid) { CommittedInPrefix(logs, n, part[i].tid); }
      }
    }
  }

  /** No page of the world carries an LSN from elsewhere. */
  ghost predicate OwnLsns(w: World)
  {
    && (forall p <- w.cache :: !w.cache[p].ours ==> w.cache[p].lsn == INVALID_LSN)
    && (forall p <- w.disk :: !w.disk[p].ours ==> w.disk[p].lsn == INVALID_LSN)
  }

  lemma {:induction false} OwnLsnsOverRuns(w: World, events: seq<Event>)
    requires OwnLsns(w) && IsRun(w, events)
    ensures OwnLsns(EndOf(w, events))
    decreases |events|
  {
    if events != [] { OwnLsnsOverRuns(WriteAheadRule.After(w, events[0]), events[1..]); }
  }

  /** The pages of the tables are the images on disk. */
  ghost predicate OnDisk(pages: map<Recovery.PageId, Recovery.Page>, disk: map<int, Image>,
                         number: Recovery.PageId -> int)
  {
    forall p <- pages :: number(p) in disk && pages[p].lsn == disk[number(p)].lsn
  }

  /** By the write-ahead rule the log file has reached every page LSN. */
  lemma PagesBehindLog(w: World, pages: map<Recovery.PageId, Recovery.Page>, number: Recovery.PageId -> int)
    requires WorldOk(w) && OwnLsns(w) && w.log.lost == {} && OnDisk(pages, w.disk, number)
    ensures forall p: Recovery.PageId :: Recovery.LsnOf(pages, p) < |w.log.durable|
  {
    forall p: Recovery.PageId ensures Recovery.LsnOf(pages, p) < |w.log.durable| {
      if p in pages {
        var q := number(p);
        assert pages[p].lsn == w.disk[q].lsn;
        if w.disk[q].ours { DurableIsWritten(w.log, w.disk[q].lsn); }
      }
    }
  }

  lemma DurableIsWritten(s: State, lsn: int)
    requires Inv(s) && s.lost == {} && 0 <= lsn && DurableTo(s, lsn)
    ensures lsn < |s.durable|
  {
    InOrder(s);
    assert lsn in Lsns(s.durable);
    var r :| r in s.durable && r.lsn == lsn;
    var i :| 0 <= i < |s.durable| && s.durable[i] == r;
    assert s.issued[i] == r;
  }

  // ---------- the theorem ----------

  /** The state of the server when it crashes in its first lifetime: any safe run of pool and log threads in which no
      write of the log failed, the records that were appended, and the pages on disk. */
  ghost predicate CrashState(w0: World, events: seq<Event>, recs: seq<LogCodec.Record>,
                             t: TableRun.Records, pages: map<Recovery.PageId, Recovery.Page>,
                             number: Recovery.PageId -> int)
  {
    && Start(w0) && OwnLsns(w0) && IsRun(w0, events) && TouchesSafe(w0, events)
    && var w := EndOf(w0, events);
    && w.log.lost == {} && Logged(w.log.issued, recs)
    && Execution(t, ParseAll(recs)) && TableRun.PagesFollow(t, ParseAll(recs), pages)
    && OnDisk(pages, w.disk, number)
  }

  /** The tables that recovery is given: pages numbered from 1, and every logged place exists. */
  ghost predicate TablesFit(logs: seq<Recovery.LogRecord>, pages: map<Recovery.PageId, Recovery.Page>,
                            counts: map<string, int>, slots: map<string, int>)
  {
    && (forall tab <- counts :: RM_FIRST_RECORD_PAGE <= counts[tab])
    && (forall p: Recovery.PageId :: p in pages <==>
        p.table in counts && RM_FIRST_RECORD_PAGE <= p.pageNo < counts[p.table])
    && (forall r <- logs :: Recovery.Fits(r, counts, slots))
  }

  /** A transaction whose commit record was forced has committed in every surviving part of the log. */
  lemma ForcedCommitSurvives(s: State, logs: seq<Recovery.LogRecord>, n: nat, lsn: int)
    requires Inv(s) && s.lost == {} && |s.durable| <= n <= |logs|
    requires 0 <= lsn <= s.persistLsn && lsn < |logs| && logs[lsn].Commit?
    ensures Recovery.Committed(logs[..n], logs[lsn].tid)
  {
    InOrder(s);
    assert logs[..n][lsn] == logs[lsn];
  }

  /** What a crash leaves: n records can be loaded, among them all durable ones, and the pages on disk are behind
      them. */
  ghost predicate Survives(file: Bytes, s: State, recs: seq<LogCodec.Record>,
                           pages: map<Recovery.PageId, Recovery.Page>, n: nat, tail: seq<LogCodec.Byte>)
  {
    && |s.durable| <= n <= |recs| && LogCodec.TornTail(tail) && (forall r <- recs :: LogCodec.WellFormed(r))
    && file == LogCodec.EncodeAll(recs[..n]) + tail
    && (forall p: Recovery.PageId :: Recovery.LsnOf(pages, p) < n)
    && (forall i :: 0 <= i <= s.persistLsn && i < |recs| && ParseAll(recs)[i].Commit? ==>
        Recovery.Committed(ParseAll(recs)[..n], ParseAll(recs)[i].tid))
  }

  lemma AfterCrash(file: Bytes, w0: World, events: seq<Event>, cut: nat, recs: seq<LogCodec.Record>,
                   t: TableRun.Records, pages: map<Recovery.PageId, Recovery.Page>,
                   number: Recovery.PageId -> int)
    returns (n: nat, tail: seq<LogCodec.Byte>)
    requires CrashState(w0, events, recs, t, pages, number) && FileAfterCrash(file, EndOf(w0, events).log, cut)
    ensures Survives(file, EndOf(w0, events).log, recs, pages, n, tail)
  {
    var w := EndOf(w0, events);
    StartOk(w0);
    SafeRunOk(w0, events);
    OwnLsnsOverRuns(w0, events);
    PagesBehindLog(w, pages, number);
    InOrder(w.log);
    var torn;
    n, torn := FileIsPrefix(file, w.log, cut);
    tail := PrefixLoads(w.log.issued, recs, n, torn);
    forall i | 0 <= i <= w.log.persistLsn && i < |recs| && ParseAll(recs)[i].Commit?
      ensures Recovery.Committed(ParseAll(recs)[..n], ParseAll(recs)[i].tid)
    {
      ForcedCommitSurvives(w.log, ParseAll(recs), n, i);
    }
  }

  /** Recovery from the first n records of an execution, and from pages that these have reached. */
  method RecoverPrefix(logs: seq<Recovery.LogRecord>, pages: map<Recovery.PageId, Recovery.Page>,
                       counts: map<string, int>, slots: map<string, int>, ghost all: seq<Recovery.LogRecord>,
                       ghost n: nat, ghost t: TableRun.Records)
    returns (m: Recovery.RecoveryManager)
    requires n <= |all| && logs == all[..n] && Execution(t, all) && TableRun.PagesFollow(t, all, pages)
    requires TablesFit(all, pages, counts, slots) && forall p: Recovery.PageId :: Recovery.LsnOf(pages, p) < n
    ensures m.logs == logs
    ensures forall x: Recovery.Place ::
              Recovery.ValueAt(m.pages, x) == TableRun.Lookup(TableRun.CommittedRecords(t, logs), x)
  {
    PrefixRecovers(t, all, n);
    PagesFollowPrefix(t, all, n, pages);
    m := new Recovery.RecoveryManager(logs, pages, counts, slots);
    TableRun.RecoverRun(m, t);
  }

  /** Load the log and recover. Whatever the interleaving of threads and wherever the crash cut the batch under way, the
      tables end as if only the transactions whose commit is in the surviving part of the log had run.
      That part holds everything up to persist_lsn_, so every commit that was acknowledged is among them. */
  method Restart(file: seq<LogCodec.Byte>, pages: map<Recovery.PageId, Recovery.Page>, counts: map<string, int>,
                 slots: map<string, int>, ghost w0: World, ghost events: seq<Event>, ghost cut: nat,
                 ghost recs: seq<LogCodec.Record>, ghost t: TableRun.Records, ghost number: Recovery.PageId -> int)
    returns (m: Recovery.RecoveryManager, ghost n: nat)
    requires CrashState(w0, events, recs, t, pages, number)
    requires FileAfterCrash(file, EndOf(w0, events).log, cut)
    requires TablesFit(ParseAll(recs), pages, counts, slots)
    ensures |EndOf(w0, events).log.durable| <= n <= |recs| && m.logs == ParseAll(recs)[..n]
    ensures forall x: Recovery.Place ::
              Recovery.ValueAt(m.pages, x) == TableRun.Lookup(TableRun.CommittedRecords(t, ParseAll(recs)[..n]), x)
    ensures forall i :: 0 <= i <= EndOf(w0, events).log.persistLsn && i < |recs| && ParseAll(recs)[i].Commit? ==>
              ParseAll(recs)[i].tid in Recovery.Winners(ParseAll(recs)[..n])
  {
    ghost var tail;
    n, tail := AfterCrash(file, w0, events, cut, recs, t, pages, number);
    assert file[0..] == file;
    var logs := LogCodec.LoadLogs(file, 0, recs[..n], tail);
    ParsePrefix(recs, n);
    m := RecoverPrefix(ParseAll(logs), pages, counts, slots, ParseAll(recs), n, t);
  }
}
