/** The log manager as a concurrent protocol (src/recovery/log_manager.cpp).

    Threads append records and force the log. The latch makes each step atomic; it is released
    only around the write of a batch and while waiting for another thread's batch. A step of
    this model is the part of a call between two points where the latch can change hands. */
module LogProtocol {
  import opened Common

  /** A log record: its LSN and its serialized bytes. */
  datatype Record = Record(lsn: int, body: Bytes)

  /** Who called flush_buffer_locked. */
  datatype Caller = ByAppend(body: Bytes) | ByForce(target: int)

  /** Where a thread stands. */
  datatype Pc =
    | Idle
    | Appending(body: Bytes)                    // add_log_to_buffer, before the is_full test
    | Forcing(target: int)                      // flush_log_to_disk, before the persist_lsn_ test
    | Flushing(caller: Caller)                  // flush_buffer_locked, before the flush_in_progress_ test
    | Writing(caller: Caller, flushLsn: int)    // latch released, write_log under way
    | Written(caller: Caller, flushLsn: int)    // write_log returned, about to lock again
    | Notifying(after: Option<Caller>)          // flush_in_progress_ cleared, about to notify_all; None: to throw

  datatype State = State(
    nextLsn: int,             // global_lsn_
    buffer: seq<Record>,      // log_buffer_
    bufferMaxLsn: int,        // log_buffer_max_lsn_
    inFlight: seq<Record>,    // flush_buffer_ while its write is under way
    flushInProgress: bool,    // flush_in_progress_
    persistLsn: int,          // persist_lsn_
    durable: seq<Record>,     // the log file
    lost: set<int>,           // the LSNs of batches whose write failed
    issued: seq<Record>,      // history: every record that was given an LSN, in that order
    pc: map<int, Pc>,
    flusher: int,             // the thread in Writing or Written, when flushInProgress
    asleep: set<int>)         // the threads in flush_cv_.wait

  datatype Action =
    | CallAppend(t: int, body: Bytes)
    | CallForce(t: int, target: int)
    | TryAppend(t: int)
    | TryForce(t: int)
    | TryFlush(t: int)
    | WriteOk(t: int)
    | WriteFail(t: int)
    | Finish(t: int)
    | Notify(t: int)

  function Total(rs: seq<Record>): (n: int)
  {
    if rs == [] then 0 else Total(rs[..|rs| - 1]) + |rs[|rs| - 1].body|
  }

  predicate Init(s: State)
  {
    && s.nextLsn == 0 && s.buffer == [] && s.bufferMaxLsn == INVALID_LSN && s.inFlight == []
    && !s.flushInProgress && s.persistLsn == INVALID_LSN && s.durable == [] && s.lost == {}
    && s.issued == [] && s.asleep == {}
    && (forall t <- s.pc :: s.pc[t] == Idle)
  }

  predicate Enabled(s: State, a: Action)
  {
    a.t in s.pc && a.t !in s.asleep &&
    match a
    case CallAppend(t, body) => s.pc[t] == Idle && 0 < |body| <= LOG_BUFFER_SIZE
    case CallForce(t, target) => s.pc[t] == Idle
    case TryAppend(t) => s.pc[t].Appending?
    case TryForce(t) => s.pc[t].Forcing?
    case TryFlush(t) => s.pc[t].Flushing?
    case WriteOk(t) => s.pc[t].Writing?
    case WriteFail(t) => s.pc[t].Writing?
    case Finish(t) => s.pc[t].Written?
    case Notify(t) => s.pc[t].Notifying?
  }

  /** flush_buffer_locked returned. */
  function Back(c: Caller): Pc
  {
    match c
    case ByAppend(body) => Appending(body)
    case ByForce(target) => if target == INVALID_LSN then Idle else Forcing(target)
  }

  function At(s: State, t: int, pc: Pc): State
  {
    s.(pc := s.pc[t := pc])
  }

  /** flush_cv_.wait: the thread stays where it is until a notify_all wakes it and it tests again. */
  function Sleep(s: State, t: int): State
  {
    s.(asleep := s.asleep + {t})
  }

  function Lsns(rs: seq<Record>): set<int>
  {
    set r <- rs :: r.lsn
  }

  function Next(s: State, a: Action): (s': State)
    requires Enabled(s, a)
  {
    match a
    case CallAppend(t, body) => At(s, t, Appending(body))
    case CallForce(t, target) => At(s, t, Forcing(target))
    case TryAppend(t) =>
      var body := s.pc[t].body;
      if Total(s.buffer) + |body| > LOG_BUFFER_SIZE then At(s, t, Flushing(ByAppend(body)))
      else
        var r := Record(s.nextLsn, body);
        At(s, t, Idle).(nextLsn := s.nextLsn + 1, buffer := s.buffer + [r], bufferMaxLsn := s.nextLsn,
                        issued := s.issued + [r])
    case TryForce(t) =>
      var target := s.pc[t].target;
      if target == INVALID_LSN then At(s, t, Flushing(ByForce(target)))
      else if target <= s.persistLsn then At(s, t, Idle)
      else if s.flushInProgress then Sleep(s, t)
      else if s.buffer == [] then At(s, t, Idle)
      else At(s, t, Flushing(ByForce(target)))
    case TryFlush(t) =>
      var c := s.pc[t].caller;
      if s.flushInProgress then Sleep(s, t)
      else if s.buffer == [] then At(s, t, Back(c))
      else
        At(s, t, Writing(c, s.bufferMaxLsn)).(inFlight := s.buffer, buffer := [], bufferMaxLsn := INVALID_LSN,
                                              flushInProgress := true, flusher := t)
    case WriteOk(t) =>
      At(s, t, Written(s.pc[t].caller, s.pc[t].flushLsn)).(durable := s.durable + s.inFlight, inFlight := [])
    case WriteFail(t) =>
      At(s, t, Notifying(None)).(lost := s.lost + Lsns(s.inFlight), inFlight := [], flushInProgress := false)
    case Finish(t) =>
      var pc := s.pc[t];
      At(s, t, Notifying(Some(pc.caller))).(persistLsn := if pc.flushLsn > s.persistLsn then pc.flushLsn
                                                          else s.persistLsn,
                                            flushInProgress := false)
    case Notify(t) =>
      var after := s.pc[t].after;
      At(s, t, if after.Some? then Back(after.value) else Idle).(asleep := {})
  }

  // ---------- the invariant ----------

  /** Everything not lost, in LSN order: log file, batch under way, buffer. */
  ghost function AllRecords(s: State): seq<Record>
  {
    s.durable + s.inFlight + s.buffer
  }

  ghost predicate Ascending(rs: seq<Record>)
  {
    forall i, j :: 0 <= i < j < |rs| ==> rs[i].lsn < rs[j].lsn
  }

  /** LSNs count the issued records, and each of the given records is the one issued under its LSN. */
  ghost predicate IsHistory(issued: seq<Record>, rs: seq<Record>)
  {
    && (forall i :: 0 <= i < |issued| ==> issued[i].lsn == i)
    && (forall r <- rs :: 0 <= r.lsn < |issued| && r == issued[r.lsn])
  }

  /** The records in the file, under way and in the buffer are, in LSN order, exactly those issued and not lost;
      and each is the record that was issued. */
  ghost predicate RecordsOk(s: State)
  {
    && Ascending(AllRecords(s))
    && (forall l :: l in Lsns(AllRecords(s)) <==> 0 <= l < s.nextLsn && l !in s.lost)
    && (forall l <- s.lost :: 0 <= l < s.nextLsn)
    && s.nextLsn == |s.issued| && IsHistory(s.issued, AllRecords(s))
  }

  function LastLsn(rs: seq<Record>): int
  {
    if rs == [] then INVALID_LSN else rs[|rs| - 1].lsn
  }

  /** persist_lsn_ is the last LSN in the file, except between a write and its Finish;
      it lies below everything that is not yet in the file. */
  ghost predicate PersistOk(s: State)
  {
    && (!(s.flushInProgress && s.flusher in s.pc && s.pc[s.flusher].Written?) ==> s.persistLsn == LastLsn(s.durable))
    && s.persistLsn <= LastLsn(s.durable)
    && (forall r <- s.inFlight :: s.persistLsn < r.lsn)
    && (forall r <- s.buffer :: s.persistLsn < r.lsn)
    && INVALID_LSN <= s.persistLsn < s.nextLsn
  }

  ghost predicate BufferOk(s: State)
  {
    && s.bufferMaxLsn == (if s.buffer == [] then INVALID_LSN else s.buffer[|s.buffer| - 1].lsn)
    && Total(s.buffer) <= LOG_BUFFER_SIZE
    && (forall t <- s.pc :: s.pc[t].Appending? ==> 0 < |s.pc[t].body| <= LOG_BUFFER_SIZE)
  }

  /** One thread at a time writes a batch, and it knows the batch's last LSN. */
  ghost predicate FlusherOk(s: State)
  {
    && (forall t <- s.pc :: s.pc[t].Writing? || s.pc[t].Written? ==> s.flushInProgress && t == s.flusher)
    && (s.flushInProgress ==> s.flusher in s.pc && (s.pc[s.flusher].Writing? || s.pc[s.flusher].Written?))
    && (s.flushInProgress && s.pc[s.flusher].Writing? ==>
          s.inFlight != [] && s.pc[s.flusher].flushLsn == s.inFlight[|s.inFlight| - 1].lsn)
    && (!(s.flushInProgress && s.pc[s.flusher].Writing?) ==> s.inFlight == [])
    && (s.flushInProgress && s.pc[s.flusher].Written? ==>
          s.durable != [] && s.pc[s.flusher].flushLsn == s.durable[|s.durable| - 1].lsn)
  }

  /** Who called the flush that the thread is in. */
  function CallerOf(pc: Pc): Option<Caller>
  {
    match pc
    case Flushing(c) => Some(c)
    case Writing(c, _) => Some(c)
    case Written(c, _) => Some(c)
    case Notifying(after) => after
    case _ => None
  }

  ghost predicate CallersOk(s: State)
  {
    forall t <- s.pc :: CallerOf(s.pc[t]).Some? && CallerOf(s.pc[t]).value.ByAppend? ==>
      0 < |CallerOf(s.pc[t]).value.body| <= LOG_BUFFER_SIZE
  }

  ghost predicate SomeNotifies(s: State)
  {
    exists u :: u in s.pc && s.pc[u].Notifying?
  }

  /** Threads sleep only inside their waiting loops and while a batch is under way or a notify_all is still to come;
      a force whose target has become persistent sleeps only in the second case. */
  ghost predicate SleepersOk(s: State)
  {
    && (forall t <- s.asleep :: t in s.pc && (s.pc[t].Forcing? || s.pc[t].Flushing?))
    && (s.asleep != {} && !s.flushInProgress ==> SomeNotifies(s))
    && (forall t <- s.asleep :: s.pc[t].Forcing? && s.pc[t].target <= s.persistLsn ==> SomeNotifies(s))
  }

  ghost predicate Inv(s: State)
  {
    RecordsOk(s) && PersistOk(s) && BufferOk(s) && FlusherOk(s) && CallersOk(s) && SleepersOk(s)
  }

  lemma InitInv(s: State)
    requires Init(s)
    ensures Inv(s)
  {
  }

  lemma AppendKeepsRecords(s: State, s': State, r: Record)
    requires RecordsOk(s) && r.lsn == s.nextLsn && s.nextLsn >= 0
    requires s'.durable == s.durable && s'.inFlight == s.inFlight && s'.buffer == s.buffer + [r]
    requires s'.lost == s.lost && s'.nextLsn == s.nextLsn + 1 && s'.issued == s.issued + [r]
    ensures RecordsOk(s')
  {
    assert AllRecords(s') == AllRecords(s) + [r];
    forall x | x in AllRecords(s) ensures x.lsn < s.nextLsn { assert x.lsn in Lsns(AllRecords(s)); }
    forall l ensures l in Lsns(AllRecords(s')) <==> l in Lsns(AllRecords(s)) || l == s.nextLsn {
      assert r in AllRecords(s');
    }
  }

  lemma AppendStep(s: State, t: int)
    requires Inv(s) && Enabled(s, TryAppend(t))
    ensures Inv(Next(s, TryAppend(t)))
  {
    var s' := Next(s, TryAppend(t));
    if Total(s.buffer) + |s.pc[t].body| > LOG_BUFFER_SIZE {
      MoveKeepsInv(s, t, s'.pc[t]);
    } else {
      AppendKeepsRecords(s, s', Record(s.nextLsn, s.pc[t].body));
      AppendKeepsBuffer(s, t);
      AppendKeepsThreads(s, t);
    }
  }

  lemma AppendKeepsBuffer(s: State, t: int)
    requires PersistOk(s) && BufferOk(s) && FlusherOk(s)
    requires Enabled(s, TryAppend(t)) && Total(s.buffer) + |s.pc[t].body| <= LOG_BUFFER_SIZE
    ensures PersistOk(Next(s, TryAppend(t))) && BufferOk(Next(s, TryAppend(t)))
  {
    TotalSnoc(s.buffer, Record(s.nextLsn, s.pc[t].body));
  }

  lemma TotalSnoc(rs: seq<Record>, r: Record)
    ensures Total(rs + [r]) == Total(rs) + |r.body|
  {
    assert (rs + [r])[..|rs|] == rs;
  }

  lemma AppendKeepsThreads(s: State, t: int)
    requires Inv(s) && Enabled(s, TryAppend(t)) && Total(s.buffer) + |s.pc[t].body| <= LOG_BUFFER_SIZE
    ensures FlusherOk(Next(s, TryAppend(t))) && CallersOk(Next(s, TryAppend(t)))
    ensures SleepersOk(Next(s, TryAppend(t)))
  {
    MoveKeepsSleepers(s, t, Idle);
  }

  /** An awake thread moves that is not about to notify. */
  lemma MoveKeepsSleepers(s: State, t: int, pc: Pc)
    requires SleepersOk(s) && t in s.pc && t !in s.asleep && !s.pc[t].Notifying?
    ensures SleepersOk(At(s, t, pc))
  {
    if SomeNotifies(s) {
      var u :| u in s.pc && s.pc[u].Notifying?;
      assert At(s, t, pc).pc[u].Notifying?;
    }
  }

  /** A thread outside the write moves; nothing else changes. */
  lemma MoveKeepsInv(s: State, t: int, pc: Pc)
    requires Inv(s) && t in s.pc && t !in s.asleep && !s.pc[t].Notifying?
    requires !s.pc[t].Writing? && !s.pc[t].Written? && !pc.Writing? && !pc.Written?
    requires pc.Appending? ==> 0 < |pc.body| <= LOG_BUFFER_SIZE
    requires CallerOf(pc).Some? && CallerOf(pc).value.ByAppend? ==> 0 < |CallerOf(pc).value.body| <= LOG_BUFFER_SIZE
    ensures Inv(At(s, t, pc))
  {
    MoveKeepsSleepers(s, t, pc);
    assert AllRecords(At(s, t, pc)) == AllRecords(s);
  }

  /** A thread goes to sleep while a batch is under way, and not when its target is persistent. */
  lemma SleepKeepsInv(s: State, t: int)
    requires Inv(s) && t in s.pc && s.flushInProgress
    requires s.pc[t].Flushing? || (s.pc[t].Forcing? && s.pc[t].target > s.persistLsn)
    ensures Inv(Sleep(s, t))
  {
    assert AllRecords(Sleep(s, t)) == AllRecords(s);
    if SomeNotifies(s) { assert SomeNotifies(Sleep(s, t)); }
  }

  lemma ForceStep(s: State, t: int)
    requires Inv(s) && Enabled(s, TryForce(t))
    ensures Inv(Next(s, TryForce(t)))
  {
    var target := s.pc[t].target;
    if target != INVALID_LSN && target > s.persistLsn && s.flushInProgress {
      SleepKeepsInv(s, t);
    } else {
      MoveKeepsInv(s, t, Next(s, TryForce(t)).pc[t]);
    }
  }

  lemma FlushStep(s: State, t: int)
    requires Inv(s) && Enabled(s, TryFlush(t))
    ensures Inv(Next(s, TryFlush(t)))
  {
    var s' := Next(s, TryFlush(t));
    if s.flushInProgress {
      SleepKeepsInv(s, t);
    } else if s.buffer == [] {
      MoveKeepsInv(s, t, s'.pc[t]);
    } else {
      BatchTaken(s, t);
    }
  }

  lemma BatchTaken(s: State, t: int)
    requires Inv(s) && Enabled(s, TryFlush(t)) && !s.flushInProgress && s.buffer != []
    ensures Inv(Next(s, TryFlush(t)))
  {
    var s' := Next(s, TryFlush(t));
    assert AllRecords(s') == AllRecords(s);
    MoveKeepsSleepers(s, t, s'.pc[t]);
  }

  lemma WriteStep(s: State, t: int)
    requires Inv(s) && Enabled(s, WriteOk(t))
    ensures Inv(Next(s, WriteOk(t)))
  {
    var s' := Next(s, WriteOk(t));
    assert AllRecords(s') == AllRecords(s);
    assert s.inFlight[|s.inFlight| - 1] in s.inFlight;
    MoveKeepsSleepers(s, t, s'.pc[t]);
  }

  /** A failed write drops its batch: these records, and no others, are lost. */
  lemma FailStep(s: State, t: int)
    requires Inv(s) && Enabled(s, WriteFail(t))
    ensures Inv(Next(s, WriteFail(t)))
  {
    var s' := Next(s, WriteFail(t));
    assert AllRecords(s') == s.durable + s.buffer;
    FailKeepsOrder(s);
    FailKeepsHistory(s);
    forall l ensures l in Lsns(AllRecords(s')) <==> l in Lsns(AllRecords(s)) && l !in Lsns(s.inFlight) {
      FailKeeps(s, l);
    }
    FailKeepsThreads(s, t);
  }

  lemma FailKeepsThreads(s: State, t: int)
    requires Inv(s) && Enabled(s, WriteFail(t))
    ensures var s' := Next(s, WriteFail(t)); PersistOk(s') && BufferOk(s') && FlusherOk(s') && CallersOk(s')
    ensures SleepersOk(Next(s, WriteFail(t)))
  {
    assert Next(s, WriteFail(t)).pc[t].Notifying?;
  }

  lemma FailKeepsOrder(s: State)
    requires Ascending(AllRecords(s))
    ensures Ascending(s.durable + s.buffer)
  {
    var all, all' := AllRecords(s), s.durable + s.buffer;
    var d, f := |s.durable|, |s.inFlight|;
    forall i | 0 <= i < |all'| ensures all'[i] == all[if i < d then i else i + f] {}
  }

  lemma FailKeepsHistory(s: State)
    requires IsHistory(s.issued, AllRecords(s))
    ensures IsHistory(s.issued, s.durable + s.buffer)
  {
    forall r | r in s.durable + s.buffer ensures r in AllRecords(s) {}
  }

  lemma FailKeeps(s: State, l: int)
    requires Ascending(AllRecords(s))
    ensures l in Lsns(s.durable + s.buffer) <==> l in Lsns(AllRecords(s)) && l !in Lsns(s.inFlight)
  {
    var all := AllRecords(s);
    var d, f := |s.durable|, |s.inFlight|;
    if l in Lsns(s.durable + s.buffer) {
      var r :| r in s.durable + s.buffer && r.lsn == l;
      var i :| 0 <= i < |s.durable + s.buffer| && (s.durable + s.buffer)[i] == r;
      assert all[if i < d then i else i + f] == r;
      forall x | x in s.inFlight ensures x.lsn != l {
        var j :| 0 <= j < f && s.inFlight[j] == x;
        assert all[d + j] == x;
      }
    }
  }

  lemma FinishStep(s: State, t: int)
    requires Inv(s) && Enabled(s, Finish(t))
    ensures Inv(Next(s, Finish(t)))
  {
    var s' := Next(s, Finish(t));
    var all := AllRecords(s);
    assert AllRecords(s') == all;
    var d := |s.durable|;
    assert all[d - 1] == s.durable[d - 1];
    assert all[d - 1] in all;
    assert all[d - 1].lsn in Lsns(all);
    forall r | r in s.buffer ensures s'.persistLsn < r.lsn {
      var j :| 0 <= j < |s.buffer| && s.buffer[j] == r;
      assert all[d + j] == r;
    }
    assert s'.pc[t].Notifying?;
  }

  lemma NotifyStep(s: State, t: int)
    requires Inv(s) && Enabled(s, Notify(t))
    ensures Inv(Next(s, Notify(t)))
  {
    assert AllRecords(Next(s, Notify(t))) == AllRecords(s);
    NotifyKeepsThreads(s, t);
  }

  lemma NotifyKeepsThreads(s: State, t: int)
    requires BufferOk(s) && FlusherOk(s) && CallersOk(s) && SleepersOk(s) && Enabled(s, Notify(t))
    ensures var s' := Next(s, Notify(t)); BufferOk(s') && FlusherOk(s') && CallersOk(s') && SleepersOk(s')
  {
  }

  lemma InvStep(s: State, a: Action)
    requires Inv(s) && Enabled(s, a)
    ensures Inv(Next(s, a))
  {
    match a {
      case CallAppend(t, body) => MoveKeepsInv(s, t, Appending(body));
      case CallForce(t, target) => MoveKeepsInv(s, t, Forcing(target));
      case TryAppend(t) => AppendStep(s, t);
      case TryForce(t) => ForceStep(s, t);
      case TryFlush(t) => FlushStep(s, t);
      case WriteOk(t) => WriteStep(s, t);
      case WriteFail(t) => FailStep(s, t);
      case Finish(t) => FinishStep(s, t);
      case Notify(t) => NotifyStep(s, t);
    }
  }

  // ---------- whole runs ----------

  /** The actions lead from s to s'. */
  ghost predicate Leads(s: State, actions: seq<Action>, s': State)
    decreases |actions|
  {
    if actions == [] then s' == s
    else Enabled(s, actions[0]) && Leads(Next(s, actions[0]), actions[1..], s')
  }

  lemma {:induction false} LeadsKeepsInv(s: State, actions: seq<Action>, s': State)
    requires Inv(s) && Leads(s, actions, s')
    ensures Inv(s') && s.durable <= s'.durable && s.persistLsn <= s'.persistLsn
    decreases |actions|
  {
    if actions != [] {
      InvStep(s, actions[0]);
      DurableGrows(s, actions[0]);
      LeadsKeepsInv(Next(s, actions[0]), actions[1..], s');
    }
  }

  /** Every interleaving of appenders and flushers keeps the invariant. */
  lemma RunInv(s0: State, actions: seq<Action>, s: State)
    requires Init(s0) && Leads(s0, actions, s)
    ensures Inv(s)
  {
    InitInv(s0);
    LeadsKeepsInv(s0, actions, s);
  }

  lemma {:induction false} LeadsConcat(s: State, a: seq<Action>, m: State, b: seq<Action>, s': State)
    requires Leads(s, a, m) && Leads(m, b, s')
    ensures Leads(s, a + b, s')
    decreases |a|
  {
    if a == [] {
      assert a + b == b;
    } else {
      assert (a + b)[1..] == a[1..] + b;
      LeadsConcat(Next(s, a[0]), a[1..], m, b, s');
    }
  }

  lemma LeadsStep(s: State, a: seq<Action>, m: State, b: Action)
    requires Leads(s, a, m) && Enabled(m, b)
    ensures Leads(s, a + [b], Next(m, b))
  {
    assert [b][1..] == [];
    assert Leads(Next(m, b), [], Next(m, b));
    LeadsConcat(s, a, m, [b], Next(m, b));
  }

  /** The records that no failed write dropped. */
  ghost function Kept(rs: seq<Record>, lost: set<int>): seq<Record>
  {
    if rs == [] then []
    else
      var r := rs[|rs| - 1];
      Kept(rs[..|rs| - 1], lost) + if r.lsn in lost then [] else [r]
  }

  lemma {:induction false} KeptMembers(rs: seq<Record>, lost: set<int>, r: Record)
    ensures r in Kept(rs, lost) <==> r in rs && r.lsn !in lost
  {
    if rs != [] {
      KeptMembers(rs[..|rs| - 1], lost, r);
      assert rs == rs[..|rs| - 1] + [rs[|rs| - 1]];
    }
  }

  lemma {:induction false} KeptAscending(rs: seq<Record>, lost: set<int>)
    requires Ascending(rs)
    ensures Ascending(Kept(rs, lost))
  {
    if rs != [] {
      var init := rs[..|rs| - 1];
      KeptAscending(init, lost);
      forall r | r in Kept(init, lost) ensures r.lsn < rs[|rs| - 1].lsn { KeptMembers(init, lost, r); }
    }
  }

  lemma AscendingLast(rs: seq<Record>, r: Record)
    requires Ascending(rs) && r in rs
    ensures r.lsn < rs[|rs| - 1].lsn || r == rs[|rs| - 1]
  {
    var i :| 0 <= i < |rs| && rs[i] == r;
  }

  lemma InitMembers(rs: seq<Record>, r: Record)
    requires Ascending(rs) && rs != []
    ensures r in rs[..|rs| - 1] <==> r in rs && r != rs[|rs| - 1]
  {
    assert rs == rs[..|rs| - 1] + [rs[|rs| - 1]];
  }

  /** An ascending sequence is determined by its members. */
  lemma {:induction false} SameAscending(a: seq<Record>, b: seq<Record>)
    requires Ascending(a) && Ascending(b) && forall r :: r in a <==> r in b
    ensures a == b
  {
    assert |a| > 0 ==> a[0] in b;
    assert |b| > 0 ==> b[0] in a;
    if a != [] {
      SameLast(a, b);
      var a', b' := a[..|a| - 1], b[..|b| - 1];
      forall x ensures x in a' <==> x in b' {
        InitMembers(a, x);
        InitMembers(b, x);
      }
      SameAscending(a', b');
      InitAndLast(a);
      InitAndLast(b);
    }
  }

  lemma InitAndLast(rs: seq<Record>)
    requires rs != []
    ensures rs == rs[..|rs| - 1] + [rs[|rs| - 1]]
  {
  }

  lemma SameLast(a: seq<Record>, b: seq<Record>)
    requires Ascending(a) && Ascending(b) && a != [] && b != [] && forall r :: r in a <==> r in b
    ensures a[|a| - 1] == b[|b| - 1]
  {
    assert a[|a| - 1] in a && b[|b| - 1] in b;
    AscendingLast(a, b[|b| - 1]);
    AscendingLast(b, a[|a| - 1]);
  }

  /** Log file ++ batch under way ++ buffer is the history of issued records without those that failed writes dropped,
      and the whole history while no write has failed. */
  lemma AllInOrder(s: State)
    requires RecordsOk(s)
    ensures AllRecords(s) == Kept(s.issued, s.lost)
    ensures s.lost == {} ==> AllRecords(s) == s.issued
  {
    KeptAscending(s.issued, s.lost);
    KeptAscending(s.issued, {});
    forall r ensures r in AllRecords(s) <==> r in Kept(s.issued, s.lost) {
      KeptMembers(s.issued, s.lost, r);
      IssuedOrLost(s, r);
    }
    SameAscending(AllRecords(s), Kept(s.issued, s.lost));
    if s.lost == {} {
      forall r ensures r in Kept(s.issued, {}) <==> r in s.issued { KeptMembers(s.issued, {}, r); }
      SameAscending(Kept(s.issued, {}), s.issued);
    }
  }

  lemma IssuedOrLost(s: State, r: Record)
    requires RecordsOk(s)
    ensures r in AllRecords(s) <==> r in s.issued && r.lsn !in s.lost
  {
    assert r in AllRecords(s) ==> r.lsn in Lsns(AllRecords(s));
    if r in s.issued && r.lsn !in s.lost {
      assert r.lsn in Lsns(AllRecords(s));
      var x :| x in AllRecords(s) && x.lsn == r.lsn;
      assert x == s.issued[r.lsn] == r;
    }
  }

  /** Records never leave the file, and persist_lsn_ never goes back. */
  lemma DurableGrows(s: State, a: Action)
    requires Inv(s) && Enabled(s, a)
    ensures s.durable <= Next(s, a).durable && s.persistLsn <= Next(s, a).persistLsn
    ensures s.lost <= Next(s, a).lost && s.nextLsn <= Next(s, a).nextLsn
  {
  }

  /** flush_log_to_disk(target) has returned when its thread is idle again. */
  ghost predicate ForceReturns(s: State, a: Action, target: int)
  {
    Enabled(s, a) && target != INVALID_LSN && a.TryForce? && s.pc[a.t] == Forcing(target) && Next(s, a).pc[a.t] == Idle
  }

  /** The force returns only with the issued target in the file, if and only if no failed write dropped it;
      and then every older record is in the file or was dropped. */
  lemma ForceIsDurable(s: State, a: Action, target: int, l: int)
    requires Inv(s) && ForceReturns(s, a, target) && 0 <= l <= target < s.nextLsn
    ensures l in Lsns(Next(s, a).durable) <==> l !in Next(s, a).lost
  {
    InvStep(s, a);
    var s' := Next(s, a);
    var all := AllRecords(s');
    assert l in Lsns(all) <==> l !in s'.lost;
    if l in Lsns(all) {
      var r :| r in all && r.lsn == l;
      if r in s'.durable { assert l in Lsns(s'.durable); }
    }
    if l in Lsns(s'.durable) {
      var r :| r in s'.durable && r.lsn == l;
      assert r in all;
    }
  }

  // ---------- waiting ----------

  /** How many of its own steps the thread is away from having called notify_all. */
  function StepsToNotify(pc: Pc): nat
  {
    match pc
    case Writing(_, _) => 3
    case Written(_, _) => 2
    case Notifying(_) => 1
    case _ => 0
  }

  /** No wake-up is lost: while any thread sleeps, an awake thread is on its way to notify_all, which does not wait. */
  lemma SomeoneWakes(s: State) returns (u: int)
    requires Inv(s) && s.asleep != {}
    ensures u in s.pc && u !in s.asleep && StepsToNotify(s.pc[u]) > 0
  {
    if s.flushInProgress { u := s.flusher; } else { u :| u in s.pc && s.pc[u].Notifying?; }
  }

  function CountSteps(actions: seq<Action>, u: int): nat
  {
    if actions == [] then 0 else (if actions[0].t == u then 1 else 0) + CountSteps(actions[1..], u)
  }

  /** At some point of the run thread t is awake. */
  ghost predicate AwakeOnce(s: State, actions: seq<Action>, t: int)
    decreases |actions|
  {
    t !in s.asleep ||
    (actions != [] && Enabled(s, actions[0]) && AwakeOnce(Next(s, actions[0]), actions[1..], t))
  }

  /** Only the notifier's own steps change how far it is from notify_all. */
  lemma NotifierStep(s: State, a: Action, u: int)
    requires Enabled(s, a) && u in s.pc && StepsToNotify(s.pc[u]) > 0
    ensures u in Next(s, a).pc
    ensures a.t != u ==> Next(s, a).pc[u] == s.pc[u]
    ensures a.t == u ==> StepsToNotify(Next(s, a).pc[u]) < StepsToNotify(s.pc[u])
    ensures a.t == u && StepsToNotify(Next(s, a).pc[u]) == 0 ==> Next(s, a).asleep == {}
  {
  }

  /** Whatever the other threads do in between and whether the write fails or not, every sleeper has been woken
      by the time the notifier has taken its steps, of which there are at most three. */
  lemma {:induction false} SleeperIsWoken(s: State, actions: seq<Action>, s': State, u: int, t: int)
    requires Inv(s) && Leads(s, actions, s') && u in s.pc
    requires 0 < StepsToNotify(s.pc[u]) <= CountSteps(actions, u)
    ensures AwakeOnce(s, actions, t)
    decreases |actions|
  {
    if t in s.asleep {
      var a := actions[0];
      NotifierStep(s, a, u);
      InvStep(s, a);
      if Next(s, a).asleep != {} { SleeperIsWoken(Next(s, a), actions[1..], s', u, t); }
    }
  }

  /** A step inside a call of thread t or u; it does not fail and starts no new call. */
  predicate StepOf(a: Action, t: int, u: int)
  {
    (a.t == t || a.t == u) && !a.WriteFail? && !a.CallAppend? && !a.CallForce?
  }

  /** Steps of threads t and u lead from s to s'. */
  ghost predicate Reaches(s: State, t: int, u: int, s': State)
  {
    exists actions: seq<Action> :: Leads(s, actions, s') && forall a <- actions :: StepOf(a, t, u)
  }

  lemma ReachesItself(s: State, t: int, u: int)
    ensures Reaches(s, t, u, s)
  {
    assert Leads(s, [], s);
  }

  lemma ReachesMore(s: State, t: int, u: int, m: State, a: Action)
    requires Reaches(s, t, u, m) && Enabled(m, a) && StepOf(a, t, u)
    ensures Reaches(s, t, u, Next(m, a))
  {
    var actions: seq<Action> :| Leads(s, actions, m) && forall a <- actions :: StepOf(a, t, u);
    LeadsStep(s, actions, m, a);
  }

  lemma ReachesNext(s: State, t: int, u: int, m: State, a: Action)
    requires Inv(m) && Reaches(s, t, u, m) && Enabled(m, a) && StepOf(a, t, u)
    ensures Reaches(s, t, u, Next(m, a)) && Inv(Next(m, a))
  {
    ReachesMore(s, t, u, m, a);
    InvStep(m, a);
  }

  /** From here the thread goes when it has called notify_all. */
  function AfterNotify(pc: Pc): Pc
    requires StepsToNotify(pc) > 0
  {
    if CallerOf(pc).Some? then Back(CallerOf(pc).value) else Idle
  }

  lemma NotifyNow(s: State, t: int, u: int, m: State, n: int) returns (s': State)
    requires Inv(m) && Reaches(s, t, u, m) && (n == t || n == u) && n in m.pc && m.pc[n].Notifying?
    requires !m.flushInProgress
    ensures Reaches(s, t, u, s') && Inv(s') && !s'.flushInProgress && s'.asleep == {}
    ensures s'.buffer == m.buffer && s'.pc == m.pc[n := AfterNotify(m.pc[n])]
  {
    assert n !in m.asleep;
    ReachesNext(s, t, u, m, Notify(n));
    s' := Next(m, Notify(n));
  }

  lemma FinishNow(s: State, t: int, u: int, m: State, n: int) returns (s': State)
    requires Inv(m) && Reaches(s, t, u, m) && (n == t || n == u) && n in m.pc && m.pc[n].Written?
    ensures Reaches(s, t, u, s') && Inv(s') && !s'.flushInProgress
    ensures s'.buffer == m.buffer && s'.pc == m.pc[n := Notifying(Some(m.pc[n].caller))]
  {
    assert n !in m.asleep;
    ReachesNext(s, t, u, m, Finish(n));
    s' := Next(m, Finish(n));
  }

  lemma WriteNow(s: State, t: int, u: int, m: State, n: int) returns (s': State)
    requires Inv(m) && Reaches(s, t, u, m) && (n == t || n == u) && n in m.pc && m.pc[n].Writing?
    ensures Reaches(s, t, u, s') && Inv(s')
    ensures s'.buffer == m.buffer && s'.pc == m.pc[n := Written(m.pc[n].caller, m.pc[n].flushLsn)]
  {
    assert n !in m.asleep;
    ReachesNext(s, t, u, m, WriteOk(n));
    s' := Next(m, WriteOk(n));
  }

  lemma Overwrite(pc: map<int, Pc>, n: int, a: Pc, b: Pc)
    ensures pc[n := a][n := b] == pc[n := b]
  {
  }

  lemma FromWritten(s: State, t: int, u: int, m: State, n: int) returns (s': State)
    requires Inv(m) && Reaches(s, t, u, m) && (n == t || n == u) && n in m.pc && m.pc[n].Written?
    ensures Reaches(s, t, u, s') && Inv(s') && !s'.flushInProgress && s'.asleep == {}
    ensures s'.buffer == m.buffer && s'.pc == m.pc[n := AfterNotify(m.pc[n])]
  {
    var m1 := FinishNow(s, t, u, m, n);
    s' := NotifyNow(s, t, u, m1, n);
    Overwrite(m.pc, n, m1.pc[n], s'.pc[n]);
  }

  lemma FromWriting(s: State, t: int, u: int, m: State, n: int) returns (s': State)
    requires Inv(m) && Reaches(s, t, u, m) && (n == t || n == u) && n in m.pc && m.pc[n].Writing?
    ensures Reaches(s, t, u, s') && Inv(s') && !s'.flushInProgress && s'.asleep == {}
    ensures s'.buffer == m.buffer && s'.pc == m.pc[n := AfterNotify(m.pc[n])]
  {
    var m1 := WriteNow(s, t, u, m, n);
    s' := FromWritten(s, t, u, m1, n);
    Overwrite(m.pc, n, m1.pc[n], s'.pc[n]);
  }

  /** A thread on its way to notify_all can always get there. */
  lemma NotifyFrom(s: State, t: int, u: int, m: State, n: int) returns (s': State)
    requires Inv(m) && Reaches(s, t, u, m) && (n == t || n == u) && n in m.pc && StepsToNotify(m.pc[n]) > 0
    requires m.pc[n].Notifying? ==> !m.flushInProgress
    ensures Reaches(s, t, u, s') && Inv(s') && !s'.flushInProgress && s'.asleep == {}
    ensures s'.buffer == m.buffer && s'.pc == m.pc[n := AfterNotify(m.pc[n])]
  {
    match m.pc[n] {
      case Writing(_, _) => s' := FromWriting(s, t, u, m, n);
      case Written(_, _) => s' := FromWritten(s, t, u, m, n);
      case Notifying(_) => s' := NotifyNow(s, t, u, m, n);
    }
  }

  /** No batch is under way, nobody sleeps, and thread t is not about to notify. */
  ghost predicate CanMove(s: State, t: int)
  {
    Inv(s) && !s.flushInProgress && s.asleep == {} && t in s.pc && !s.pc[t].Notifying?
  }

  /** flush_buffer_locked can always return, with the buffer empty. */
  lemma FlushReturns(s: State, t: int, u: int, m: State) returns (s': State)
    requires CanMove(m, t) && Reaches(s, t, u, m) && m.pc[t].Flushing?
    ensures Reaches(s, t, u, s') && CanMove(s', t)
    ensures s'.buffer == [] && s'.pc == m.pc[t := Back(m.pc[t].caller)]
  {
    ReachesNext(s, t, u, m, TryFlush(t));
    s' := Next(m, TryFlush(t));
    if m.buffer != [] { s' := NotifyFrom(s, t, u, s', t); }
  }

  /** The test at the head of a call's loop: the call is over, or it flushes; an empty buffer ends it either way. */
  lemma FirstTry(s: State, t: int, u: int, m: State) returns (s': State)
    requires CanMove(m, t) && Reaches(s, t, u, m) && m.pc[t] != Idle && !m.pc[t].Flushing?
    ensures Reaches(s, t, u, s') && CanMove(s', t)
    ensures s'.pc[t] == Idle || s'.pc[t].Flushing?
    ensures m.buffer == [] && s'.pc[t].Flushing? ==> Back(s'.pc[t].caller) == Idle
  {
    var a := if m.pc[t].Appending? then TryAppend(t) else TryForce(t);
    ReachesNext(s, t, u, m, a);
    s' := Next(m, a);
  }

  /** One turn of a call's loop while no batch is under way: the call is over, or the buffer is empty;
      and if the buffer was empty the call is over. */
  lemma OneTurn(s: State, t: int, u: int, m: State) returns (s': State)
    requires CanMove(m, t) && Reaches(s, t, u, m) && m.pc[t] != Idle
    ensures Reaches(s, t, u, s') && CanMove(s', t)
    ensures s'.pc[t] == Idle || (s'.buffer == [] && !m.pc[t].Flushing? ==> m.buffer != [])
    ensures s'.pc[t] == Idle || (s'.buffer == [] && !s'.pc[t].Flushing?)
  {
    s' := m;
    if !m.pc[t].Flushing? { s' := FirstTry(s, t, u, m); }
    if s'.pc[t].Flushing? { s' := FlushReturns(s, t, u, s'); }
  }

  /** Nobody waits and everything of the batch under way is done, by steps of thread t and one other thread. */
  lemma Settle(s: State, t: int) returns (u: int, s': State)
    requires Inv(s) && t in s.pc
    ensures Reaches(s, t, u, s') && CanMove(s', t)
  {
    u := s.flusher;
    if !s.flushInProgress && s.asleep != {} { u := SomeoneWakes(s); }
    ReachesItself(s, t, u);
    s' := s;
    if s.flushInProgress || s.asleep != {} { s' := NotifyFrom(s, t, u, s', u); }
    if s'.pc[t].Notifying? { s' := NotifyFrom(s, t, u, s', t); }
  }

  /** From every state of every run each call can return by its own steps and those of one thread that finishes
      the batch under way or delivers its wake-up. */
  lemma CallCanReturn(s: State, t: int) returns (u: int, s': State)
    requires Inv(s) && t in s.pc
    ensures Reaches(s, t, u, s') && t in s'.pc && s'.pc[t] == Idle
  {
    u, s' := Settle(s, t);
    if s'.pc[t] != Idle { s' := OneTurn(s, t, u, s'); }
    if s'.pc[t] != Idle { s' := OneTurn(s, t, u, s'); }
  }

  /** Thread 1 appends one byte and forces the log up to the start of its write. */
  lemma AppendAndFlush(s: State) returns (actions: seq<Action>, s': State)
    requires 1 in s.pc && s.pc[1] == Idle && s.asleep == {} && s.buffer == [] && s.inFlight == [] && !s.flushInProgress
    requires s.persistLsn < s.nextLsn && 0 <= s.nextLsn
    ensures Leads(s, actions, s') && s'.pc == s.pc[1 := Writing(ByForce(s.nextLsn), s.nextLsn)]
    ensures s' == s.(nextLsn := s.nextLsn + 1, inFlight := [Record(s.nextLsn, [0])], bufferMaxLsn := INVALID_LSN,
                     issued := s.issued + [Record(s.nextLsn, [0])], flushInProgress := true, flusher := 1, pc := s'.pc)
  {
    actions, s' := [], s;
    LeadsStep(s, actions, s', CallAppend(1, [0]));
    actions, s' := actions + [CallAppend(1, [0])], Next(s', CallAppend(1, [0]));
    LeadsStep(s, actions, s', TryAppend(1));
    actions, s' := actions + [TryAppend(1)], Next(s', TryAppend(1));
    LeadsStep(s, actions, s', CallForce(1, s.nextLsn));
    actions, s' := actions + [CallForce(1, s.nextLsn)], Next(s', CallForce(1, s.nextLsn));
    LeadsStep(s, actions, s', TryForce(1));
    actions, s' := actions + [TryForce(1)], Next(s', TryForce(1));
    LeadsStep(s, actions, s', TryFlush(1));
    actions, s' := actions + [TryFlush(1)], Next(s', TryFlush(1));
  }

  /** The write of the batch fails, and the exception has left the log manager. */
  lemma FlushFails(s: State) returns (actions: seq<Action>, s': State)
    requires 1 in s.pc && s.pc[1].Writing? && s.asleep == {}
    ensures Leads(s, actions, s') && s'.pc == s.pc[1 := Idle]
    ensures s' == s.(lost := s.lost + Lsns(s.inFlight), inFlight := [], flushInProgress := false, pc := s'.pc)
  {
    actions, s' := [WriteFail(1)], Next(s, WriteFail(1));
    LeadsStep(s, [], s, WriteFail(1));
    LeadsStep(s, actions, s', Notify(1));
    actions, s' := actions + [Notify(1)], Next(s', Notify(1));
  }

  /** The write succeeds and persist_lsn_ is raised. */
  lemma FlushSucceeds(s: State) returns (actions: seq<Action>, s': State)
    requires 1 in s.pc && s.pc[1].Writing? && s.asleep == {} && s.persistLsn < s.pc[1].flushLsn
    ensures Leads(s, actions, s') && s'.durable == s.durable + s.inFlight && s'.nextLsn == s.nextLsn
    ensures s'.persistLsn == s.pc[1].flushLsn
  {
    actions, s' := [WriteOk(1)], Next(s, WriteOk(1));
    LeadsStep(s, [], s, WriteOk(1));
    LeadsStep(s, actions, s', Finish(1));
    actions, s' := actions + [Finish(1)], Next(s', Finish(1));
  }

  lemma BatchFails(s: State) returns (actions: seq<Action>, s': State)
    requires 1 in s.pc && s.pc[1] == Idle && s.asleep == {} && s.buffer == [] && s.inFlight == [] && !s.flushInProgress
    requires s.persistLsn < s.nextLsn && 0 <= s.nextLsn
    ensures Leads(s, actions, s') && 1 in s'.pc && s'.pc[1] == Idle && s'.asleep == {} && s'.buffer == []
    ensures s'.inFlight == [] && !s'.flushInProgress && s'.persistLsn == s.persistLsn && s'.durable == s.durable
    ensures s'.nextLsn == s.nextLsn + 1
  {
    var a1, s1 := AppendAndFlush(s);
    var a2;
    a2, s' := FlushFails(s1);
    actions := a1 + a2;
    LeadsConcat(s, a1, s1, a2, s');
  }

  lemma BatchSucceeds(s: State) returns (actions: seq<Action>, s': State)
    requires 1 in s.pc && s.pc[1] == Idle && s.asleep == {} && s.buffer == [] && s.inFlight == [] && !s.flushInProgress
    requires s.persistLsn < s.nextLsn && 0 <= s.nextLsn
    ensures Leads(s, actions, s') && s'.durable == s.durable + [Record(s.nextLsn, [0])]
    ensures s'.persistLsn == s.nextLsn < s'.nextLsn
  {
    var a1, s1 := AppendAndFlush(s);
    var a2;
    a2, s' := FlushSucceeds(s1);
    actions := a1 + a2;
    LeadsConcat(s, a1, s1, a2, s');
  }

  /** A run in which persist_lsn_ passes a record that is not in the file: the write of the first batch fails,
      the second one succeeds, and from then on a force of the first record would return at once. */
  lemma FailedBatchIsForgotten() returns (s0: State, actions: seq<Action>, s: State)
    ensures Init(s0) && Leads(s0, actions, s)
    ensures 0 < s.nextLsn && 0 <= s.persistLsn && 0 !in Lsns(s.durable)
  {
    s0 := State(0, [], -1, [], false, -1, [], {}, [], map[1 := Idle], 0, {});
    var a1, s1 := BatchFails(s0);
    var a2;
    a2, s := BatchSucceeds(s1);
    actions := a1 + a2;
    LeadsConcat(s0, a1, s1, a2, s);
    assert s.durable == [Record(1, [0])];
  }
}
