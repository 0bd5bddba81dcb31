/** Write-ahead rule over runs of the buffer pool together with the log manager: a page image whose LSN was
    issued in this run reaches the disk only after every log record up to that LSN. */
module WriteAheadRule {
  import opened Common
  import opened LogProtocol

  /** A page image: its LSN, and whether this run issued that LSN. */
  datatype Image = Image(lsn: int, ours: bool)

  /** Evict stands for eviction and delete_page, which take only unpinned pages;
      Flush for flush_page and flush_all_pages. */
  datatype Kind = Evict | Flush

  /** A thread inside a pool operation: it read the page's LSN and forces the log up to it before it writes the page. */
  datatype Job = NoJob | Saving(page: int, kind: Kind, target: int)

  datatype World = World(
    log: State,
    cache: map<int, Image>,
    disk: map<int, Image>,
    pinned: set<int>,
    job: map<int, Job>)

  datatype Event =
    | LogStep(action: Action)
    | Load(p: int)                              // fetch_page of a page that is not in the pool
    | New(p: int)                               // new_page and new_page_at
    | Drop(p: int)                              // eviction and delete_page of a page that is not dirty
    | Pin(p: int)
    | Unpin(p: int)
    | Touch(p: int, lsn: int)                   // a client with a pin changes the page and sets its LSN
    | StartSave(t: int, p: int, kind: Kind)     // flush_page_log is called
    | SavePage(t: int)                          // the force returned; write_page

  /** The shard latch: no thread is saving page p. */
  ghost predicate Free(w: World, p: int)
  {
    forall t <- w.job :: w.job[t].Saving? ==> w.job[t].page != p
  }

  ghost predicate Possible(w: World, e: Event)
  {
    match e
    case LogStep(a) =>
      a.t in w.job && Enabled(w.log, a) && (a.CallAppend? || a.CallForce? ==> w.job[a.t] == NoJob)
    case Load(p) => p in w.disk && p !in w.cache && Free(w, p)
    case New(p) => p !in w.cache && Free(w, p)
    case Drop(p) => p in w.cache && p !in w.pinned && Free(w, p)
    case Pin(p) => p in w.cache && Free(w, p)
    case Unpin(p) => p in w.pinned && Free(w, p)
    case Touch(p, lsn) => p in w.pinned && p in w.cache && 0 <= lsn < w.log.nextLsn
    case StartSave(t, p, kind) =>
      && t in w.job && w.job[t] == NoJob && p in w.cache && Enabled(w.log, CallForce(t, w.cache[p].lsn))
      && Free(w, p) && (kind == Evict ==> p !in w.pinned)
    case SavePage(t) =>
      && t in w.job && w.job[t].Saving? && t in w.log.pc && w.log.pc[t] == Idle && w.job[t].page in w.cache
  }

  ghost function After(w: World, e: Event): World
    requires Possible(w, e)
  {
    match e
    case LogStep(a) =>
      // a failed write throws out of the pool operation
      World(Next(w.log, a), w.cache, w.disk, w.pinned, if a.WriteFail? then w.job[a.t := NoJob] else w.job)
    case Load(p) => w.(cache := w.cache[p := w.disk[p]])
    case New(p) => w.(cache := w.cache[p := Image(INVALID_LSN, false)], pinned := w.pinned + {p})
    case Drop(p) => w.(cache := w.cache - {p})
    case Pin(p) => w.(pinned := w.pinned + {p})
    case Unpin(p) => w.(pinned := w.pinned - {p})
    case Touch(p, lsn) => w.(cache := w.cache[p := Image(lsn, true)])
    case StartSave(t, p, kind) =>
      var i := w.cache[p];
      w.(job := w.job[t := Saving(p, kind, i.lsn)],
         log := if i.lsn == INVALID_LSN then w.log else Next(w.log, CallForce(t, i.lsn)))
    case SavePage(t) =>
      var j := w.job[t];
      w.(disk := w.disk[j.page := w.cache[j.page]],
         cache := if j.kind == Evict then w.cache - {j.page} else w.cache,
         job := w.job[t := NoJob])
  }

  /** Every record up to the LSN is in the log file, or was dropped by a failed write. */
  ghost predicate DurableTo(s: State, lsn: int)
  {
    forall l :: 0 <= l <= lsn ==> l in Lsns(s.durable) || l in s.lost
  }

  /** The write-ahead rule. */
  ghost predicate RuleHolds(w: World)
  {
    forall p <- w.disk :: w.disk[p].ours ==> DurableTo(w.log, w.disk[p].lsn)
  }

  // ---------- which LSNs a force covers ----------

  /** The thread is forcing the log up to the target. */
  predicate IsForcing(pc: Pc, target: int)
  {
    || pc == Forcing(target)
    || CallerOf(pc) == Some(ByForce(target))
  }

  /** The LSN has left the log buffer: no buffered record is as old. */
  ghost predicate LeftBuffer(s: State, lsn: int)
  {
    forall r <- s.buffer :: r.lsn > lsn
  }

  /** The batch under way will satisfy a force up to the target. */
  predicate BatchSuffices(s: State, target: int)
  {
    s.flushInProgress && s.flusher in s.pc && (s.pc[s.flusher].Writing? || s.pc[s.flusher].Written?)
    && target <= s.pc[s.flusher].flushLsn
  }

  /** A force that is about to test its target covers the LSN. */
  ghost predicate LoopCovers(s: State, target: int, lsn: int)
  {
    if target <= s.persistLsn then DurableTo(s, lsn) else BatchSuffices(s, target) ==> LeftBuffer(s, lsn)
  }

  /** The force of thread t covers the LSN: it cannot return before every record up to the LSN is in the file or
      dropped. A force whose target is already persistent, or which waits only for the batch under way, covers what
      that batch and the file hold; any other force still has to write the buffer, and covers all that was issued. */
  ghost predicate Covers(s: State, t: int, lsn: int)
    requires t in s.pc
  {
    match s.pc[t]
    case Idle => DurableTo(s, lsn)
    case Forcing(target) => LoopCovers(s, target, lsn)
    case Writing(c, flushLsn) => c.ByForce? && c.target <= flushLsn ==> LeftBuffer(s, lsn)
    case Written(c, flushLsn) => c.ByForce? && c.target <= flushLsn ==> LeftBuffer(s, lsn)
    case Notifying(after) => after.Some? && after.value.ByForce? ==> LoopCovers(s, after.value.target, lsn)
    case _ => true
  }

  lemma DurableStays(s: State, a: Action, lsn: int)
    requires Inv(s) && Enabled(s, a) && DurableTo(s, lsn)
    ensures DurableTo(Next(s, a), lsn)
  {
    DurableGrows(s, a);
    var d, d' := s.durable, Next(s, a).durable;
    forall l | l in Lsns(d) ensures l in Lsns(d') {
      var r :| r in d && r.lsn == l;
      assert r in d';
    }
  }

  /** What has left the buffer while no batch is being written is in the file or dropped. */
  lemma OutIsDurable(s: State, lsn: int)
    requires RecordsOk(s) && s.inFlight == [] && LeftBuffer(s, lsn) && lsn < s.nextLsn
    ensures DurableTo(s, lsn)
  {
    forall l | 0 <= l <= lsn && l !in s.lost ensures l in Lsns(s.durable) {
      assert l in Lsns(AllRecords(s));
      var r :| r in AllRecords(s) && r.lsn == l;
      assert r in s.durable;
    }
  }

  /** A buffered record is not in the file. */
  lemma BufferedIsNotDurable(s: State, r: Record, lsn: int)
    requires RecordsOk(s) && r in s.buffer && r.lsn <= lsn
    ensures !DurableTo(s, lsn)
  {
    var all := AllRecords(s);
    var j :| 0 <= j < |s.buffer| && s.buffer[j] == r;
    assert all[|s.durable| + |s.inFlight| + j] == r;
    assert r.lsn in Lsns(all);
    forall x | x in s.durable ensures x.lsn != r.lsn {
      var i :| 0 <= i < |s.durable| && s.durable[i] == x;
      assert all[i] == x;
    }
  }

  /** A force covers its own target. */
  lemma CoversTarget(s: State, t: int, target: int)
    requires Inv(s) && t in s.pc && s.pc[t] == Forcing(target) && target < s.nextLsn
    ensures Covers(s, t, target)
  {
    if target <= s.persistLsn {
      forall l | 0 <= l <= target && l !in s.lost ensures l in Lsns(s.durable) {
        assert l in Lsns(AllRecords(s));
        var r :| r in AllRecords(s) && r.lsn == l;
        assert r in s.durable;
      }
    } else if BatchSuffices(s, target) {
      BatchBelowBuffer(s);
    }
  }

  lemma BatchBelowBuffer(s: State)
    requires Inv(s) && s.flushInProgress
    ensures forall r <- s.buffer :: s.pc[s.flusher].flushLsn < r.lsn
  {
    var all := AllRecords(s);
    var d, f := |s.durable|, |s.inFlight|;
    assert all[d + f - 1].lsn == s.pc[s.flusher].flushLsn;
    forall r | r in s.buffer ensures all[d + f - 1].lsn < r.lsn {
      var j :| 0 <= j < |s.buffer| && s.buffer[j] == r;
      assert all[d + f + j] == r;
    }
  }

  lemma FinishKeepsCover(s: State, u: int, t: int, lsn: int)
    requires Inv(s) && Enabled(s, Finish(u)) && t in s.pc && u != t && !s.pc[t].Appending?
    requires Covers(s, t, lsn) && lsn < s.nextLsn
    ensures Covers(Next(s, Finish(u)), t, lsn)
  {
    if DurableTo(s, lsn) { DurableStays(s, Finish(u), lsn); }
    if LeftBuffer(s, lsn) { OutIsDurable(s, lsn); DurableStays(s, Finish(u), lsn); }
  }

  lemma BufferStepKeepsCover(s: State, a: Action, t: int, lsn: int)
    requires FlusherOk(s) && Enabled(s, a) && (a.TryAppend? || a.TryFlush?) && t in s.pc && a.t != t
    requires !s.pc[t].Appending? && Covers(s, t, lsn) && lsn < s.nextLsn
    ensures Covers(Next(s, a), t, lsn)
  {
    assert Next(s, a).durable == s.durable && Next(s, a).lost == s.lost;
  }

  lemma WriteKeepsCover(s: State, a: Action, t: int, lsn: int)
    requires Inv(s) && Enabled(s, a) && (a.WriteOk? || a.WriteFail?) && t in s.pc && a.t != t
    requires !s.pc[t].Appending? && Covers(s, t, lsn) && lsn < s.nextLsn
    ensures Covers(Next(s, a), t, lsn)
  {
    if DurableTo(s, lsn) { DurableStays(s, a, lsn); }
  }

  /** A step that leaves file, batch and buffer alone. */
  lemma QuietStepKeepsCover(s: State, a: Action, t: int, lsn: int)
    requires FlusherOk(s) && Enabled(s, a) && (a.CallAppend? || a.CallForce? || a.TryForce? || a.Notify?)
    requires t in s.pc && a.t != t && !s.pc[t].Appending? && Covers(s, t, lsn) && lsn < s.nextLsn
    ensures Covers(Next(s, a), t, lsn)
  {
    var s' := Next(s, a);
    assert s'.durable == s.durable && s'.lost == s.lost;
  }

  /** A step of another thread does not take anything out of what a force covers. */
  lemma OthersKeepCover(s: State, a: Action, t: int, lsn: int)
    requires Inv(s) && Enabled(s, a) && t in s.pc && a.t != t && !s.pc[t].Appending?
    requires Covers(s, t, lsn) && lsn < s.nextLsn
    ensures Covers(Next(s, a), t, lsn)
  {
    if a.Finish? {
      FinishKeepsCover(s, a.t, t, lsn);
    } else if a.TryAppend? || a.TryFlush? {
      BufferStepKeepsCover(s, a, t, lsn);
    } else if a.WriteOk? || a.WriteFail? {
      WriteKeepsCover(s, a, t, lsn);
    } else {
      QuietStepKeepsCover(s, a, t, lsn);
    }
  }

  /** The force goes on, or has returned. */
  ghost predicate StillCovers(s: State, t: int, target: int, lsn: int)
  {
    t in s.pc && (IsForcing(s.pc[t], target) || s.pc[t] == Idle) && Covers(s, t, lsn)
  }

  lemma OwnTestKeepsCover(s: State, t: int, target: int, lsn: int)
    requires Inv(s) && Enabled(s, TryForce(t)) && target != INVALID_LSN && s.pc[t] == Forcing(target)
    requires Covers(s, t, lsn) && lsn < s.nextLsn
    ensures StillCovers(Next(s, TryForce(t)), t, target, lsn)
  {
    var s' := Next(s, TryForce(t));
    if DurableTo(s, lsn) { DurableStays(s, TryForce(t), lsn); }
    if s.inFlight == [] && LeftBuffer(s, lsn) { OutIsDurable(s, lsn); DurableStays(s, TryForce(t), lsn); }
  }

  lemma OwnFlushKeepsCover(s: State, t: int, target: int, lsn: int)
    requires Inv(s) && Enabled(s, TryFlush(t)) && target != INVALID_LSN && s.pc[t].caller == ByForce(target)
    requires lsn < s.nextLsn
    ensures StillCovers(Next(s, TryFlush(t)), t, target, lsn)
  {
    if s.buffer == [] && !s.flushInProgress {
      OutIsDurable(s, lsn);
      DurableStays(s, TryFlush(t), lsn);
    }
  }

  lemma OwnWriteKeepsCover(s: State, t: int, target: int, lsn: int)
    requires Inv(s) && Enabled(s, WriteOk(t)) && s.pc[t].caller == ByForce(target) && Covers(s, t, lsn)
    ensures StillCovers(Next(s, WriteOk(t)), t, target, lsn)
  {
  }

  lemma OwnFinishKeepsCover(s: State, t: int, target: int, lsn: int)
    requires Inv(s) && Enabled(s, Finish(t)) && target != INVALID_LSN && s.pc[t].caller == ByForce(target)
    requires Covers(s, t, lsn) && lsn < s.nextLsn
    ensures StillCovers(Next(s, Finish(t)), t, target, lsn)
  {
    InvStep(s, Finish(t));
    if LeftBuffer(s, lsn) { OutIsDurable(s, lsn); DurableStays(s, Finish(t), lsn); }
  }

  lemma OwnNotifyKeepsCover(s: State, t: int, target: int, lsn: int)
    requires FlusherOk(s) && Enabled(s, Notify(t)) && target != INVALID_LSN && s.pc[t].after == Some(ByForce(target))
    requires Covers(s, t, lsn)
    ensures StillCovers(Next(s, Notify(t)), t, target, lsn)
  {
    assert Next(s, Notify(t)).durable == s.durable && Next(s, Notify(t)).lost == s.lost;
  }

  /** A step of the forcing thread itself: it goes on forcing, throws, or returns with the LSN durable. */
  lemma OwnStepKeepsCover(s: State, a: Action, target: int, lsn: int)
    requires Inv(s) && Enabled(s, a) && target != INVALID_LSN && IsForcing(s.pc[a.t], target)
    requires Covers(s, a.t, lsn) && lsn < s.nextLsn
    ensures a.WriteFail? || StillCovers(Next(s, a), a.t, target, lsn)
  {
    match s.pc[a.t] {
      case Forcing(_) => OwnTestKeepsCover(s, a.t, target, lsn);
      case Flushing(_) => OwnFlushKeepsCover(s, a.t, target, lsn);
      case Writing(_, _) => if a.WriteOk? { OwnWriteKeepsCover(s, a.t, target, lsn); }
      case Written(_, _) => OwnFinishKeepsCover(s, a.t, target, lsn);
      case Notifying(_) => OwnNotifyKeepsCover(s, a.t, target, lsn);
    }
  }

  // ---------- the invariant ----------

  /** Thread t forces the log for the image, or the force has returned; it covers the image, whoever wrote it. */
  ghost predicate SaverOk(s: State, t: int, target: int, image: Image)
  {
    && t in s.pc && (s.pc[t] == Idle || (target != INVALID_LSN && IsForcing(s.pc[t], target)))
    && (image.ours ==> Covers(s, t, image.lsn))
  }

  ghost predicate JobOk(w: World, t: int)
    requires t in w.job
  {
    w.job[t].Saving? ==>
      var j := w.job[t];
      && j.page in w.cache && (j.kind == Evict ==> j.page !in w.pinned)
      && SaverOk(w.log, t, j.target, w.cache[j.page])
  }

  ghost predicate ImagesOk(images: map<int, Image>, nextLsn: int)
  {
    forall p <- images :: images[p].ours ==> 0 <= images[p].lsn < nextLsn
  }

  /** Two threads never save the same page. */
  ghost predicate JobsApart(job: map<int, Job>)
  {
    forall t, u :: t in job && u in job && t != u && job[t].Saving? && job[u].Saving? ==> job[t].page != job[u].page
  }

  ghost predicate WorldOk(w: World)
  {
    && Inv(w.log) && RuleHolds(w) && w.job.Keys == w.log.pc.Keys
    && ImagesOk(w.cache, w.log.nextLsn) && ImagesOk(w.disk, w.log.nextLsn)
    && (forall t {:trigger JobOk(w, t)} :: t in w.job ==> JobOk(w, t))
    && JobsApart(w.job)
  }

  /** The condition on clients: a page that is being saved gets only LSNs that the saver's force covers.
      A page that nobody is saving may get any LSN. */
  ghost predicate Safe(w: World, e: Event)
  {
    e.Touch? ==>
      forall t <- w.job :: w.job[t].Saving? && w.job[t].page == e.p && t in w.log.pc ==> Covers(w.log, t, e.lsn)
  }

  lemma SaverStep(s: State, a: Action, t: int, target: int, image: Image)
    requires Inv(s) && Enabled(s, a) && SaverOk(s, t, target, image) && (image.ours ==> image.lsn < s.nextLsn)
    requires a.t == t ==> !a.CallAppend? && !a.CallForce? && !a.WriteFail?
    ensures SaverOk(Next(s, a), t, target, image)
  {
    if a.t == t {
      OwnStepKeepsCover(s, a, target, if image.ours then image.lsn else INVALID_LSN);
    } else if image.ours {
      OthersKeepCover(s, a, t, image.lsn);
    }
  }

  lemma LogStepKeepsRule(w: World, a: Action)
    requires Inv(w.log) && RuleHolds(w) && Possible(w, LogStep(a))
    ensures Inv(Next(w.log, a)) && RuleHolds(After(w, LogStep(a))) && w.log.nextLsn <= Next(w.log, a).nextLsn
  {
    InvStep(w.log, a);
    DurableGrows(w.log, a);
    forall p | p in w.disk && w.disk[p].ours ensures DurableTo(Next(w.log, a), w.disk[p].lsn) {
      DurableStays(w.log, a, w.disk[p].lsn);
    }
  }

  lemma LogMoved(w: World, w': World)
    requires WorldOk(w) && w'.cache == w.cache && w'.disk == w.disk && w'.pinned == w.pinned
    requires Inv(w'.log) && RuleHolds(w') && w.log.nextLsn <= w'.log.nextLsn
    requires w'.job.Keys == w.job.Keys == w'.log.pc.Keys
    requires forall t :: t in w'.job && w'.job[t].Saving? ==>
               w'.job[t] == w.job[t] && w.job[t].page in w.cache
               && SaverOk(w'.log, t, w.job[t].target, w.cache[w.job[t].page])
    ensures WorldOk(w')
  {
    forall t | t in w'.job ensures JobOk(w', t) { assert JobOk(w, t); }
  }

  lemma ThreadsStay(s: State, a: Action)
    requires Enabled(s, a)
    ensures Next(s, a).pc.Keys == s.pc.Keys
  {
    assert s.pc.Keys + {a.t} == s.pc.Keys;
  }

  lemma LogStepOk(w: World, a: Action)
    requires WorldOk(w) && Possible(w, LogStep(a))
    ensures WorldOk(After(w, LogStep(a)))
  {
    var w' := After(w, LogStep(a));
    LogStepKeepsRule(w, a);
    ThreadsStay(w.log, a);
    forall t | t in w'.job && w'.job[t].Saving?
      ensures w'.job[t] == w.job[t] && w.job[t].page in w.cache
      ensures SaverOk(w'.log, t, w.job[t].target, w.cache[w.job[t].page])
    {
      assert JobOk(w, t);
      SaverStep(w.log, a, t, w.job[t].target, w.cache[w.job[t].page]);
    }
    LogMoved(w, w');
  }

  lemma CacheStepOk(w: World, e: Event)
    requires WorldOk(w) && Possible(w, e) && Safe(w, e)
    requires e.Load? || e.New? || e.Drop? || e.Pin? || e.Unpin? || e.Touch?
    ensures WorldOk(After(w, e))
  {
    var w' := After(w, e);
    forall t | t in w'.job ensures JobOk(w', t) { assert JobOk(w, t); }
  }

  lemma StartSaveOk(w: World, t: int, p: int, kind: Kind)
    requires WorldOk(w) && Possible(w, StartSave(t, p, kind))
    ensures WorldOk(After(w, StartSave(t, p, kind)))
  {
    var e := StartSave(t, p, kind);
    var w' := After(w, e);
    var i := w.cache[p];
    if i.lsn != INVALID_LSN { InvStep(w.log, CallForce(t, i.lsn)); }
    assert w'.log.durable == w.log.durable && w'.log.lost == w.log.lost;
    forall u | u in w'.job ensures JobOk(w', u) {
      assert JobOk(w, u);
      if u == t {
        if i.ours { CoversTarget(w'.log, t, i.lsn); }
      } else if w.job[u].Saving? && w.cache[w.job[u].page].ours && i.lsn != INVALID_LSN {
        SaverStep(w.log, CallForce(t, i.lsn), u, w.job[u].target, w.cache[w.job[u].page]);
      }
    }
  }

  lemma SavePageOk(w: World, t: int)
    requires WorldOk(w) && Possible(w, SavePage(t))
    ensures WorldOk(After(w, SavePage(t)))
  {
    var w' := After(w, SavePage(t));
    assert JobOk(w, t);
    forall u | u in w'.job ensures JobOk(w', u) { assert JobOk(w, u); }
  }

  /** A page that was saved and evicted comes back as it was. */
  lemma SavedIsLoaded(w: World, t: int, e: Event)
    requires WorldOk(w) && Possible(w, SavePage(t)) && w.job[t].kind == Evict && e == Load(w.job[t].page)
    ensures var w1 := After(w, SavePage(t)); Possible(w1, e) && After(w1, e).cache == w.cache
  {
    var w1 := After(w, SavePage(t));
    var p := w.job[t].page;
    forall u | u in w1.job && w1.job[u].Saving? ensures w1.job[u].page != p { assert JobOk(w, u); }
    assert (w.cache - {p})[p := w.cache[p]] == w.cache;
  }

  lemma WorldStep(w: World, e: Event)
    requires WorldOk(w) && Possible(w, e) && Safe(w, e)
    ensures WorldOk(After(w, e))
  {
    match e {
      case LogStep(a) => LogStepOk(w, a);
      case StartSave(t, p, kind) => StartSaveOk(w, t, p, kind);
      case SavePage(t) => SavePageOk(w, t);
      case _ => CacheStepOk(w, e);
    }
  }

  // ---------- whole runs ----------

  ghost predicate Start(w: World)
  {
    && Init(w.log) && w.cache == map[] && w.pinned == {} && w.job.Keys == w.log.pc.Keys
    && (forall p <- w.disk :: !w.disk[p].ours)
    && (forall t <- w.job :: w.job[t] == NoJob)
  }

  ghost predicate IsRun(w: World, events: seq<Event>)
    decreases |events|
  {
    events == [] || (Possible(w, events[0]) && IsRun(After(w, events[0]), events[1..]))
  }

  /** Where the run ends. */
  ghost function EndOf(w: World, events: seq<Event>): World
    requires IsRun(w, events)
    decreases |events|
  {
    if events == [] then w else EndOf(After(w, events[0]), events[1..])
  }

  ghost predicate TouchesSafe(w: World, events: seq<Event>)
    requires IsRun(w, events)
    decreases |events|
  {
    events == [] || (Safe(w, events[0]) && TouchesSafe(After(w, events[0]), events[1..]))
  }

  lemma {:induction false} SafeRunOk(w: World, events: seq<Event>)
    requires WorldOk(w) && IsRun(w, events) && TouchesSafe(w, events)
    ensures WorldOk(EndOf(w, events))
    decreases |events|
  {
    if events != [] {
      WorldStep(w, events[0]);
      SafeRunOk(After(w, events[0]), events[1..]);
    }
  }

  lemma StartOk(w: World)
    requires Start(w)
    ensures WorldOk(w)
  {
    InitInv(w.log);
    forall t | t in w.job ensures JobOk(w, t) {}
  }

  /** The rule holds in every state of every safe run, whatever the interleaving of clients, pool threads
      and log threads. */
  lemma RuleOverRuns(w: World, events: seq<Event>)
    requires Start(w) && IsRun(w, events) && TouchesSafe(w, events)
    ensures RuleHolds(EndOf(w, events))
  {
    StartOk(w);
    SafeRunOk(w, events);
  }

  /** Only a flush of a pinned page can be disturbed: eviction and delete_page hold pages that no client can touch. */
  lemma OnlyFlushDisturbed(w: World, p: int, lsn: int, t: int)
    requires WorldOk(w) && Possible(w, Touch(p, lsn)) && t in w.job && w.job[t].Saving? && w.job[t].page == p
    ensures w.job[t].kind == Flush
  {
    assert JobOk(w, t);
  }

  // ---------- the condition is exact ----------

  /** A touch between the return of the force and the page write keeps the rule
      if and only if its records are already in the file. */
  lemma TouchBeforeWrite(w: World, p: int, lsn: int, t: int)
    requires WorldOk(w) && Possible(w, Touch(p, lsn)) && t in w.job && w.job[t].Saving? && w.job[t].page == p
    requires t in w.log.pc && w.log.pc[t] == Idle
    ensures var w1 := After(w, Touch(p, lsn));
            Possible(w1, SavePage(t)) && (RuleHolds(After(w1, SavePage(t))) <==> DurableTo(w.log, lsn))
  {
    var w2 := After(After(w, Touch(p, lsn)), SavePage(t));
    assert w2.disk[p] == Image(lsn, true);
  }

  /** The rule holds now and in every safe continuation. */
  ghost predicate Sound(w: World)
  {
    forall events :: IsRun(w, events) && TouchesSafe(w, events) ==> RuleHolds(EndOf(w, events))
  }

  lemma OkIsSound(w: World)
    requires WorldOk(w)
    ensures Sound(w)
  {
    forall events | IsRun(w, events) && TouchesSafe(w, events) ensures RuleHolds(EndOf(w, events)) {
      SafeRunOk(w, events);
    }
  }

  /** A continuation that breaks the rule is found after one more step. */
  lemma UnsoundBefore(w: World, e: Event)
    requires Possible(w, e) && !e.Touch? && !Sound(After(w, e))
    ensures !Sound(w)
  {
    var w' := After(w, e);
    var events :| IsRun(w', events) && TouchesSafe(w', events) && !RuleHolds(EndOf(w', events));
    assert ([e] + events)[1..] == events;
    assert IsRun(w, [e] + events) && TouchesSafe(w, [e] + events) && !RuleHolds(EndOf(w, [e] + events));
  }

  /** Thread t saves a page whose image reaches the LSN. */
  ghost predicate SavesUpTo(w: World, t: int, lsn: int)
  {
    && Inv(w.log) && w.job.Keys == w.log.pc.Keys
    && t in w.job && w.job[t].Saving? && w.job[t].page in w.cache && w.cache[w.job[t].page] == Image(lsn, true)
  }

  lemma IdleBreaks(w: World, t: int, lsn: int)
    requires SavesUpTo(w, t, lsn) && w.log.pc[t] == Idle && !DurableTo(w.log, lsn)
    ensures !Sound(w)
  {
    var w' := After(w, SavePage(t));
    assert w'.disk[w.job[t].page] == Image(lsn, true);
    assert IsRun(w', []) && TouchesSafe(w', []) && EndOf(w', []) == w';
    UnsoundBefore(w, SavePage(t));
  }

  lemma TestBreaks(w: World, t: int, lsn: int)
    requires SavesUpTo(w, t, lsn) && w.log.pc[t].Forcing? && t !in w.log.asleep && !DurableTo(w.log, lsn)
    requires INVALID_LSN != w.log.pc[t].target <= w.log.persistLsn
    ensures !Sound(w)
  {
    var e := LogStep(TryForce(t));
    InvStep(w.log, TryForce(t));
    IdleBreaks(After(w, e), t, lsn);
    UnsoundBefore(w, e);
  }

  /** The force of thread t only has to wake up, or to wake others, and to find its target persistent. */
  ghost predicate AboutToReturn(s: State, t: int, target: int)
  {
    && t in s.pc && INVALID_LSN != target <= s.persistLsn
    && (s.pc[t] == Forcing(target) || s.pc[t] == Notifying(Some(ByForce(target))))
  }

  lemma ReturnBreaks(w: World, t: int, target: int, lsn: int)
    requires SavesUpTo(w, t, lsn) && AboutToReturn(w.log, t, target) && !DurableTo(w.log, lsn)
    ensures !Sound(w)
  {
    if w.log.pc[t].Forcing? && t !in w.log.asleep {
      TestBreaks(w, t, lsn);
    } else {
      var u := t;
      if w.log.pc[t].Forcing? { u :| u in w.log.pc && w.log.pc[u].Notifying?; }
      var e := LogStep(Notify(u));
      InvStep(w.log, Notify(u));
      TestBreaks(After(w, e), t, lsn);
      UnsoundBefore(w, e);
    }
  }

  /** The batch under way, written by thread t or another one, satisfies the force of thread t. */
  ghost predicate WaitsForBatch(s: State, t: int, target: int)
  {
    && t in s.pc && target != INVALID_LSN && IsForcing(s.pc[t], target) && !s.pc[t].Flushing?
    && BatchSuffices(s, target)
  }

  lemma WrittenBreaks(w: World, t: int, target: int, lsn: int, r: Record)
    requires SavesUpTo(w, t, lsn) && WaitsForBatch(w.log, t, target) && w.log.pc[w.log.flusher].Written?
    requires r in w.log.buffer && r.lsn <= lsn
    ensures !Sound(w)
  {
    var e := LogStep(Finish(w.log.flusher));
    InvStep(w.log, Finish(w.log.flusher));
    BufferedIsNotDurable(After(w, e).log, r, lsn);
    ReturnBreaks(After(w, e), t, target, lsn);
    UnsoundBefore(w, e);
  }

  lemma BatchBreaks(w: World, t: int, target: int, lsn: int, r: Record)
    requires SavesUpTo(w, t, lsn) && WaitsForBatch(w.log, t, target)
    requires r in w.log.buffer && r.lsn <= lsn
    ensures !Sound(w)
  {
    if w.log.pc[w.log.flusher].Written? {
      WrittenBreaks(w, t, target, lsn, r);
    } else {
      var e := LogStep(WriteOk(w.log.flusher));
      InvStep(w.log, WriteOk(w.log.flusher));
      WrittenBreaks(After(w, e), t, target, lsn, r);
      UnsoundBefore(w, e);
    }
  }

  lemma UncoveredBreaks(w: World, t: int, lsn: int)
    requires SavesUpTo(w, t, lsn)
    requires (w.log.pc[t] == Idle || (w.job[t].target != INVALID_LSN && IsForcing(w.log.pc[t], w.job[t].target)))
    requires !Covers(w.log, t, lsn)
    ensures !Sound(w)
  {
    var s, target := w.log, w.job[t].target;
    if s.pc[t] == Idle {
      IdleBreaks(w, t, lsn);
    } else if (s.pc[t].Forcing? || s.pc[t].Notifying?) && target <= s.persistLsn {
      ReturnBreaks(w, t, target, lsn);
    } else {
      var r :| r in s.buffer && r.lsn <= lsn;
      BatchBreaks(w, t, target, lsn, r);
    }
  }

  /** A touch leaves a world in which every safe continuation keeps the rule if and only if it hits a page that nobody
      is saving, or an LSN that the saver's force covers. */
  lemma TouchExact(w: World, p: int, lsn: int)
    requires WorldOk(w) && Possible(w, Touch(p, lsn))
    ensures Sound(After(w, Touch(p, lsn))) <==> Safe(w, Touch(p, lsn))
  {
    var e := Touch(p, lsn);
    if Safe(w, e) {
      WorldStep(w, e);
      OkIsSound(After(w, e));
    } else {
      var t :| t in w.job && w.job[t].Saving? && w.job[t].page == p && t in w.log.pc && !Covers(w.log, t, lsn);
      assert JobOk(w, t);
      UncoveredBreaks(After(w, e), t, lsn);
    }
  }

  ghost predicate SoundThroughout(w: World, events: seq<Event>)
    requires IsRun(w, events)
    decreases |events|
  {
    Sound(w) && (events == [] || SoundThroughout(After(w, events[0]), events[1..]))
  }

  /** Over any run: every state of the run and of its safe continuations keeps the rule
      if and only if every touch of the run is safe. */
  lemma {:induction false} RuleIffTouchesSafe(w: World, events: seq<Event>)
    requires WorldOk(w) && IsRun(w, events)
    ensures SoundThroughout(w, events) <==> TouchesSafe(w, events)
    decreases |events|
  {
    OkIsSound(w);
    if events != [] {
      var e := events[0];
      if e.Touch? { TouchExact(w, e.p, e.lsn); }
      if Safe(w, e) {
        WorldStep(w, e);
        RuleIffTouchesSafe(After(w, e), events[1..]);
      }
    }
  }

  // ---------- a run that breaks the rule ----------

  lemma {:induction false} RunStep(w: World, events: seq<Event>, e: Event)
    requires IsRun(w, events) && Possible(EndOf(w, events), e)
    ensures IsRun(w, events + [e]) && EndOf(w, events + [e]) == After(EndOf(w, events), e)
    decreases |events|
  {
    if events == [] {
      assert ([] + [e])[1..] == [];
    } else {
      assert (events + [e])[1..] == events[1..] + [e];
      RunStep(After(w, events[0]), events[1..], e);
    }
  }

  ghost function LogSteps(actions: seq<Action>): seq<Event>
  {
    if actions == [] then [] else [LogStep(actions[0])] + LogSteps(actions[1..])
  }

  /** A run of the log alone is a run of the world while no page is being saved. */
  lemma {:induction false} LogRuns(w: World, actions: seq<Action>, s': State)
    requires Leads(w.log, actions, s') && w.job.Keys == w.log.pc.Keys && forall t <- w.job :: w.job[t] == NoJob
    ensures IsRun(w, LogSteps(actions)) && EndOf(w, LogSteps(actions)) == w.(log := s')
    decreases |actions|
  {
    if actions != [] {
      ThreadsStay(w.log, actions[0]);
      var e := LogStep(actions[0]);
      assert After(w, e) == w.(log := Next(w.log, actions[0]));
      LogRuns(After(w, e), actions[1..], s');
      assert ([e] + LogSteps(actions[1..]))[1..] == LogSteps(actions[1..]);
    }
  }

  /** Page 7 is on disk, nothing is cached, and thread 1 is the only thread. */
  ghost const BEFORE: World :=
    World(State(0, [], -1, [], false, -1, [], {}, [], map[1 := Idle], 0, {}),
          map[], map[7 := Image(INVALID_LSN, false)], {}, map[1 := NoJob])

  ghost const FIRST: Record := Record(0, [0])
  ghost const SECOND: Record := Record(1, [0])

  /** The first record is in the file, the second one in the log buffer. */
  ghost const TWO_RECORDS: State :=
    State(2, [SECOND], 1, [], false, 0, [FIRST], {}, [FIRST, SECOND], map[1 := Idle], 1, {})

  /** The first record is in the file, and the log buffer is empty. */
  ghost const ONE_RECORD: State :=
    State(1, [], -1, [], false, 0, [FIRST], {}, [FIRST], map[1 := Idle], 1, {})

  /** Thread 1 writes its batch and returns from the force. */
  lemma ForceReturnsWritten(s: State) returns (actions: seq<Action>)
    requires s == State(1, [], -1, [FIRST], true, -1, [], {}, [FIRST], map[1 := Writing(ByForce(0), 0)], 1, {})
    ensures Leads(s, actions, ONE_RECORD)
  {
    actions := [WriteOk(1), Finish(1), Notify(1), TryForce(1)];
    assert actions[1..] == [Finish(1), Notify(1), TryForce(1)];
    assert actions[1..][1..] == [Notify(1), TryForce(1)];
    assert actions[1..][1..][1..] == [TryForce(1)];
    var s1 := Next(s, WriteOk(1));
    var s2 := Next(s1, Finish(1));
    var s3 := Next(s2, Notify(1));
    assert Next(s3, TryForce(1)) == ONE_RECORD;
  }

  lemma AppendOne() returns (actions: seq<Action>)
    ensures Leads(ONE_RECORD, actions, TWO_RECORDS)
  {
    actions := [CallAppend(1, [0]), TryAppend(1)];
    assert actions[1..] == [TryAppend(1)];
    assert Next(Next(ONE_RECORD, CallAppend(1, [0])), TryAppend(1)) == TWO_RECORDS;
  }

  /** Thread 1 appends a record, forces it, and appends another one. */
  lemma AppendForceAppend() returns (actions: seq<Action>)
    ensures Leads(BEFORE.log, actions, TWO_RECORDS)
  {
    var a1, s1 := AppendAndFlush(BEFORE.log);
    assert s1.pc == map[1 := Writing(ByForce(0), 0)];
    var a2 := ForceReturnsWritten(s1);
    LeadsConcat(BEFORE.log, a1, s1, a2, ONE_RECORD);
    var a3 := AppendOne();
    actions := a1 + a2 + a3;
    LeadsConcat(BEFORE.log, a1 + a2, ONE_RECORD, a3, TWO_RECORDS);
  }

  /** A client has changed page 7 under the first record. */
  ghost const CHANGED: World :=
    World(TWO_RECORDS, map[7 := Image(0, true)], map[7 := Image(INVALID_LSN, false)], {7}, map[1 := NoJob])

  /** A flush of page 7 has forced the log up to the page's LSN and is about to write the page. */
  ghost const FORCED: World := CHANGED.(job := map[1 := Saving(7, Flush, 0)])

  lemma ClientChangesPage() returns (events: seq<Event>)
    ensures IsRun(BEFORE, events) && EndOf(BEFORE, events) == CHANGED
  {
    var actions := AppendForceAppend();
    LogRuns(BEFORE, actions, TWO_RECORDS);
    events := LogSteps(actions);
    RunStep(BEFORE, events, Load(7));
    events := events + [Load(7)];
    RunStep(BEFORE, events, Pin(7));
    events := events + [Pin(7)];
    RunStep(BEFORE, events, Touch(7, 0));
    events := events + [Touch(7, 0)];
  }

  lemma FlushForcesLog() returns (events: seq<Event>)
    ensures IsRun(BEFORE, events) && EndOf(BEFORE, events) == FORCED
  {
    events := ClientChangesPage();
    RunStep(BEFORE, events, StartSave(1, 7, Flush));
    events := events + [StartSave(1, 7, Flush)];
    RunStep(BEFORE, events, LogStep(TryForce(1)));
    events := events + [LogStep(TryForce(1))];
    assert TWO_RECORDS.pc[1 := Forcing(0)][1 := Idle] == TWO_RECORDS.pc;
  }

  /** flush_page does not wait for pins. In this run from the start a client changes the page after the log force of a
      flush and before its page write: the image on disk then carries a record that is only in the log buffer. */
  lemma FlushRaceBreaksRule() returns (events: seq<Event>)
    ensures Start(BEFORE) && IsRun(BEFORE, events) && !RuleHolds(EndOf(BEFORE, events))
  {
    events := FlushForcesLog();
    RunStep(BEFORE, events, Touch(7, 1));
    events := events + [Touch(7, 1)];
    RunStep(BEFORE, events, SavePage(1));
    events := events + [SavePage(1)];
    var w := EndOf(BEFORE, events);
    assert w.disk[7] == Image(1, true) && 1 !in Lsns(w.log.durable);
  }
}
