/** The calls of the log manager over whole runs, whatever other threads do between a call and its return.

    When flush_log_to_disk returns, everything it was asked for is in the file or was dropped by a failed write; without
    a target it was asked for every record issued before the call. add_log_to_buffer issues its record exactly once. */
module LogCalls {
  import opened Common
  import opened LogProtocol
  import opened WriteAheadRule

  /** The last LSN that a force is asked for. */
  function Asked(s: State, target: int): int
  {
    if target == INVALID_LSN then s.nextLsn - 1 else target
  }

  /** Thread t is inside its force, or has come back from it with every record up to the LSN in the file or dropped. */
  ghost predicate OnItsWay(s: State, t: int, target: int, lsn: int)
  {
    t in s.pc && lsn < s.nextLsn && (target != INVALID_LSN ==> lsn == target) &&
    match s.pc[t]
    case Idle => DurableTo(s, lsn)
    case Appending(_) => false
    case Forcing(x) => x == target
    case Flushing(c) => c == ByForce(target)
    case Writing(c, _) => c == ByForce(target) && LeftBuffer(s, lsn)
    case Written(c, _) => c == ByForce(target) && LeftBuffer(s, lsn)
    case Notifying(None) => DurableTo(s, lsn)
    case Notifying(Some(c)) => c == ByForce(target) && DurableTo(s, lsn)
  }

  predicate NewCall(a: Action, t: int)
  {
    a.t == t && (a.CallAppend? || a.CallForce?)
  }

  /** What has left the buffer does not come back. */
  lemma LeftStays(s: State, a: Action, lsn: int)
    requires Enabled(s, a) && LeftBuffer(s, lsn) && lsn < s.nextLsn
    ensures LeftBuffer(Next(s, a), lsn)
  {
  }

  lemma OthersStay(s: State, a: Action, t: int)
    requires Enabled(s, a) && a.t != t && t in s.pc
    ensures t in Next(s, a).pc && Next(s, a).pc[t] == s.pc[t] && s.nextLsn <= Next(s, a).nextLsn
  {
  }

  lemma OtherThread(s: State, a: Action, t: int, target: int, lsn: int)
    requires Inv(s) && Enabled(s, a) && a.t != t && OnItsWay(s, t, target, lsn)
    ensures OnItsWay(Next(s, a), t, target, lsn)
  {
    OthersStay(s, a, t);
    if DurableTo(s, lsn) { DurableStays(s, a, lsn); }
    if LeftBuffer(s, lsn) { LeftStays(s, a, lsn); }
  }

  /** The first test of the loop; a target that is persistent, or older than an empty buffer, is in the file. */
  lemma OwnTest(s: State, t: int, target: int, lsn: int)
    requires Inv(s) && Enabled(s, TryForce(t)) && OnItsWay(s, t, target, lsn)
    ensures OnItsWay(Next(s, TryForce(t)), t, target, lsn)
  {
    var a := TryForce(t);
    if target != INVALID_LSN && Next(s, a).pc[t] == Idle {
      forall l | 0 <= l <= target ensures l in Lsns(Next(s, a).durable) || l in Next(s, a).lost {
        ForceIsDurable(s, a, target, l);
      }
    }
  }

  lemma OwnTakeover(s: State, t: int, target: int, lsn: int)
    requires Inv(s) && Enabled(s, TryFlush(t)) && OnItsWay(s, t, target, lsn)
    ensures OnItsWay(Next(s, TryFlush(t)), t, target, lsn)
  {
    if !s.flushInProgress && s.buffer == [] {
      OutIsDurable(s, lsn);
      DurableStays(s, TryFlush(t), lsn);
    }
  }

  lemma OwnFailure(s: State, t: int, target: int, lsn: int)
    requires Inv(s) && Enabled(s, WriteFail(t)) && OnItsWay(s, t, target, lsn)
    ensures OnItsWay(Next(s, WriteFail(t)), t, target, lsn)
  {
    InvStep(s, WriteFail(t));
    OutIsDurable(Next(s, WriteFail(t)), lsn);
  }

  lemma OwnPublish(s: State, t: int, target: int, lsn: int)
    requires Inv(s) && Enabled(s, Finish(t)) && OnItsWay(s, t, target, lsn)
    ensures OnItsWay(Next(s, Finish(t)), t, target, lsn)
  {
    OutIsDurable(s, lsn);
    DurableStays(s, Finish(t), lsn);
  }

  lemma OwnNotify(s: State, t: int, target: int, lsn: int)
    requires Inv(s) && Enabled(s, Notify(t)) && OnItsWay(s, t, target, lsn)
    ensures OnItsWay(Next(s, Notify(t)), t, target, lsn)
  {
    DurableStays(s, Notify(t), lsn);
  }

  lemma OwnStep(s: State, a: Action, target: int, lsn: int)
    requires Inv(s) && Enabled(s, a) && OnItsWay(s, a.t, target, lsn) && !NewCall(a, a.t)
    ensures OnItsWay(Next(s, a), a.t, target, lsn)
  {
    match a {
      case TryForce(t) => OwnTest(s, t, target, lsn);
      case TryFlush(t) => OwnTakeover(s, t, target, lsn);
      case WriteOk(t) =>
      case WriteFail(t) => OwnFailure(s, t, target, lsn);
      case Finish(t) => OwnPublish(s, t, target, lsn);
      case Notify(t) => OwnNotify(s, t, target, lsn);
    }
  }

  lemma {:induction false} ForceGoesOn(s: State, actions: seq<Action>, s': State, t: int, target: int, lsn: int)
    requires Inv(s) && OnItsWay(s, t, target, lsn)
    requires Leads(s, actions, s') && forall a <- actions :: !NewCall(a, t)
    ensures OnItsWay(s', t, target, lsn)
    decreases |actions|
  {
    if actions != [] {
      var a := actions[0];
      if a.t == t { OwnStep(s, a, target, lsn); } else { OtherThread(s, a, t, target, lsn); }
      InvStep(s, a);
      ForceGoesOn(Next(s, a), actions[1..], s', t, target, lsn);
    }
  }

  /** In every run in which thread t calls flush_log_to_disk in state s and has returned from it in state s', every
      record up to the target is in the file or was dropped; without a target, every record issued before the call. */
  lemma ForceOverRuns(s: State, actions: seq<Action>, s': State, t: int, target: int)
    requires Inv(s) && t in s.pc && s.pc[t] == Forcing(target) && INVALID_LSN <= target < s.nextLsn
    requires Leads(s, actions, s') && (forall a <- actions :: !NewCall(a, t)) && t in s'.pc && s'.pc[t] == Idle
    ensures forall l :: 0 <= l <= Asked(s, target) ==> l in Lsns(s'.durable) || l in s'.lost
  {
    ForceGoesOn(s, actions, s', t, target, Asked(s, target));
  }

  // ---------- appends ----------

  lemma IssuedGrows(s: State, a: Action)
    requires Enabled(s, a)
    ensures |s.issued| <= |Next(s, a).issued|
  {
  }

  /** The records that steps of thread t issue along a run. */
  ghost function IssuedBy(s: State, actions: seq<Action>, s': State, t: int): seq<Record>
    requires Leads(s, actions, s')
    decreases |actions|
  {
    if actions == [] then []
    else
      IssuedGrows(s, actions[0]);
      var m := Next(s, actions[0]);
      (if actions[0].t == t then m.issued[|s.issued|..] else []) + IssuedBy(m, actions[1..], s', t)
  }

  /** Thread t is inside add_log_to_buffer, and its record is still to be appended. */
  predicate InAppend(pc: Pc, body: Bytes)
  {
    pc == Appending(body) || CallerOf(pc) == Some(ByAppend(body))
  }

  /** It has returned, or is about to throw. */
  predicate Over(pc: Pc)
  {
    pc == Idle || pc == Notifying(None)
  }

  lemma OverStays(s: State, a: Action, t: int)
    requires Enabled(s, a) && t in s.pc && Over(s.pc[t]) && !NewCall(a, t)
    ensures t in Next(s, a).pc && Over(Next(s, a).pc[t]) && a != WriteFail(t)
    ensures a.t == t ==> Next(s, a).issued == s.issued
  {
  }

  /** What a call that is over has still to do issues nothing and does not fail. */
  lemma {:induction false} NoMoreIssued(s: State, actions: seq<Action>, s': State, t: int)
    requires t in s.pc && Over(s.pc[t])
    requires Leads(s, actions, s') && forall a <- actions :: !NewCall(a, t)
    ensures IssuedBy(s, actions, s', t) == [] && WriteFail(t) !in actions
    decreases |actions|
  {
    if actions != [] {
      var a := actions[0];
      assert actions == [a] + actions[1..];
      OverStays(s, a, t);
      NoMoreIssued(Next(s, a), actions[1..], s', t);
    }
  }

  /** A step of the appending thread issues its record and ends the call, throws, or goes on. */
  lemma AppendingStep(s: State, a: Action, body: Bytes)
    requires Enabled(s, a) && InAppend(s.pc[a.t], body)
    ensures var s' := Next(s, a);
            || (s'.issued == s.issued && InAppend(s'.pc[a.t], body) && !a.WriteFail?)
            || (s'.issued == s.issued && Over(s'.pc[a.t]) && a.WriteFail?)
            || (s'.issued == s.issued + [Record(s.nextLsn, body)] && s'.pc[a.t] == Idle && !a.WriteFail?)
  {
  }

  ghost predicate AppendedOnce(issued: seq<Record>, body: Bytes, failed: bool)
  {
    if failed then issued == [] else |issued| == 1 && issued[0].body == body
  }

  lemma FirstOf(a: Action, actions: seq<Action>, b: Action)
    requires actions != [] && actions[0] == a
    ensures b in actions <==> b == a || b in actions[1..]
  {
    assert actions == [a] + actions[1..];
  }

  /** In every run in which thread t calls add_log_to_buffer in state s and is back in state s', its steps issue its
      record, once and with its bytes, or none because its write of a full buffer failed. */
  lemma {:induction false} AppendOverRuns(s: State, actions: seq<Action>, s': State, t: int, body: Bytes)
    requires t in s.pc && InAppend(s.pc[t], body) && t in s'.pc && s'.pc[t] == Idle
    requires Leads(s, actions, s') && forall a <- actions :: !NewCall(a, t)
    ensures AppendedOnce(IssuedBy(s, actions, s', t), body, WriteFail(t) in actions)
    decreases |actions|
  {
    var a, rest := actions[0], actions[1..];
    var m := Next(s, a);
    FirstOf(a, actions, WriteFail(t));
    if a.t == t { AppendingStep(s, a, body); } else { OthersStay(s, a, t); }
    if InAppend(m.pc[t], body) {
      AppendOverRuns(m, rest, s', t, body);
      assert IssuedBy(s, actions, s', t) == IssuedBy(m, rest, s', t);
    } else {
      NoMoreIssued(m, rest, s', t);
      assert IssuedBy(s, actions, s', t) == m.issued[|s.issued|..];
    }
  }
}
