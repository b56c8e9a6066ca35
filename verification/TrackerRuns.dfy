/**
 Runs of the tracker under concurrent use.

 Every lock-protected section is one event. The lookup a `Track` method makes before it takes the lock is
 an event of its own, `Check`; the insertion is another, `Commit`, and anything may happen between the two.
 Snapshots are whatever snapd gave the caller, so nothing is assumed about how snapd moves on. Time passes in
 `Tick` events, which stop at the first deadline of a sleeping goroutine; `Tick(0)` changes nothing.
 */
module TrackerRuns {
  import opened SnapTracking

  datatype Event =
    | Check(call: nat, op: Status, changeID: string, snap: Snap)
    | Commit(call: nat)
    | Report(snap: Snap)
    | CancelFor(name: string)
    | Wake(timer: Timer)
    | Tick(elapsed: nat)

  /** The call of a `Track` method that has passed its check and not yet taken the lock. */
  datatype Passed = Passed(op: Status, changeID: string, snap: Snap)

  datatype System = System(tracker: Tracker, passed: map<nat, Passed>)

  predicate Enabled(s: System, e: Event) {
    match e
    case Check(call, _, _, _) => call !in s.passed
    case Commit(call) => call in s.passed
    case Report(_) => true
    case CancelFor(_) => true
    case Wake(timer) => timer in s.tracker.timers && timer.deadline <= s.tracker.now
    case Tick(elapsed) => forall t :: t in s.tracker.timers ==> s.tracker.now + elapsed <= t.deadline
  }

  function Apply(s: System, e: Event): System
    requires Enabled(s, e)
  {
    match e
    case Check(call, op, changeID, snap) =>
      if PassesCheck(s.tracker.states, op, snap) then s.(passed := s.passed[call := Passed(op, changeID, snap)])
      else s
    case Commit(call) =>
      var p := s.passed[call];
      System(Insert(s.tracker, p.op, p.changeID, p.snap.name), s.passed - {call})
    case Report(snap) => s.(tracker := Query(s.tracker, snap))
    case CancelFor(name) => s.(tracker := Cancel(s.tracker, name))
    case Wake(timer) => s.(tracker := Fire(s.tracker, timer))
    case Tick(elapsed) => s.(tracker := s.tracker.(now := s.tracker.now + elapsed))
  }

  datatype Run = Run(at: seq<System>, events: seq<Event>) {
    ghost predicate Step(i: nat)
      requires i < |events| < |at|
    {
      Enabled(at[i], events[i]) && at[i + 1] == Apply(at[i], events[i])
    }

    /** From the empty tracker, every event follows the one before. */
    ghost predicate Valid() {
      && |at| == |events| + 1
      && at[0] == System(EMPTY_TRACKER, map[])
      && forall i :: 0 <= i < |events| ==> Step(i)
    }

    predicate Commits(i: nat, name: string)
      requires i < |events| < |at|
    {
      events[i].Commit? && events[i].call in at[i].passed && at[i].passed[events[i].call].snap.name == name
    }

    function Committed(i: nat): Passed
      requires i < |events| < |at| && events[i].Commit? && events[i].call in at[i].passed
    {
      at[i].passed[events[i].call]
    }

    predicate Wakes(i: nat, name: string)
      requires i < |events|
    {
      events[i].Wake? && events[i].timer.name == name
    }

    predicate Cancels(i: nat, name: string)
      requires i < |events|
    {
      events[i].CancelFor? && events[i].name == name
    }

    /** A report that deletes the entry because its snapshot shows the operation completed. */
    predicate Completes(i: nat, name: string)
      requires i < |events| < |at|
    {
      events[i].Report? && events[i].snap.name == name && !Runs(at[i].tracker.states, events[i].snap)
    }

    predicate Touches(i: nat, name: string)
      requires i < |events| < |at|
    {
      Commits(i, name) || Wakes(i, name) || Cancels(i, name) || Completes(i, name)
    }

    function Now(i: nat): nat
      requires i < |at|
    {
      at[i].tracker.now
    }

    function States(i: nat): map<string, SnapState>
      requires i < |at|
    {
      at[i].tracker.states
    }

    function Timers(i: nat): multiset<Timer>
      requires i < |at|
    {
      at[i].tracker.timers
    }

    /** `k` is the last commit of `name` before the state at `n`. */
    ghost predicate LatestCommit(k: nat, n: nat, name: string)
      requires n <= |events| < |at|
    {
      k < n && Commits(k, name) && forall m :: k < m < n ==> !Commits(m, name)
    }

    /** `j` is the check that let the call committed at `i` through. */
    ghost predicate ChecksFor(j: nat, i: nat)
      requires i < |events| < |at|
    {
      && j < i && events[i].Commit? && events[j].Check? && events[j].call == events[i].call
      && events[j].call !in at[j].passed
      && (forall m :: j < m <= i ==> events[i].call in at[m].passed)
    }
  }

  /** Two entries of a map agree: both absent, or both present and equal. */
  predicate SameEntry(a: map<string, SnapState>, b: map<string, SnapState>, name: string) {
    (name in a <==> name in b) && (name in a ==> a[name] == b[name])
  }

  /** A `Track` method that nothing interrupts is its check followed at once by its commit. */
  lemma TrackIsCheckThenCommit(s: System, call: nat, op: Status, changeID: string, snap: Snap)
    requires call !in s.passed
    ensures var checked := Apply(s, Check(call, op, changeID, snap));
      if call in checked.passed
      then Apply(checked, Commit(call)) == System(Track(s.tracker, op, changeID, snap), s.passed)
      else checked == s && Track(s.tracker, op, changeID, snap) == s.tracker
  {
    var p := Passed(op, changeID, snap);
    assert s.passed[call := p] - {call} == s.passed;
  }

  // ---------------------------------------------------------------- steps, and what they leave alone

  lemma {:induction false} ClockIsMonotone(r: Run, i: nat, n: nat)
    requires r.Valid() && i <= n <= |r.events|
    ensures r.Now(i) <= r.Now(n)
  {
    if i < n {
      assert r.Step(n - 1);
      ClockIsMonotone(r, i, n - 1);
    }
  }

  /** What one event makes of the entry of `name`. */
  lemma EntryAfter(r: Run, i: nat, name: string)
    requires r.Valid() && i < |r.events|
    ensures name in r.States(i + 1) <==>
      r.Commits(i, name) || (name in r.States(i) && !r.Wakes(i, name) && !r.Cancels(i, name) && !r.Completes(i, name))
    ensures name in r.States(i + 1) && !r.Commits(i, name) ==> r.States(i + 1)[name] == r.States(i)[name]
    ensures r.Commits(i, name) ==> r.States(i + 1)[name] == SnapState(r.Committed(i).op, r.Committed(i).changeID, 0, "")
  {
    assert r.Step(i);
    ApplyToEntry(r.at[i], r.events[i], name);
  }

  lemma ApplyToEntry(s: System, e: Event, name: string)
    requires Enabled(s, e)
    ensures var states, after := s.tracker.states, Apply(s, e).tracker.states;
      if e.Commit? && s.passed[e.call].snap.name == name then
        name in after && after[name] == SnapState(s.passed[e.call].op, s.passed[e.call].changeID, 0, "")
      else if (e.Wake? && e.timer.name == name) || (e.CancelFor? && e.name == name)
              || (e.Report? && e.snap.name == name && !Runs(states, e.snap)) then name !in after
      else SameEntry(states, after, name)
  {
  }

  /** An entry that nothing touches stays as it is. */
  lemma {:induction false} UntouchedEntry(r: Run, i: nat, n: nat, name: string)
    requires r.Valid() && i <= n <= |r.events|
    requires forall m :: i <= m < n ==> !r.Touches(m, name)
    ensures SameEntry(r.States(i), r.States(n), name)
  {
    if i < n {
      EntryAfter(r, n - 1, name);
      assert !r.Touches(n - 1, name);
      UntouchedEntry(r, i, n - 1, name);
    }
  }

  /** No goroutine oversleeps: a deadline still pending has not passed. */
  lemma {:induction false} NoTimerIsLate(r: Run, n: nat)
    requires r.Valid() && n <= |r.events|
    ensures forall t :: t in r.Timers(n) ==> r.Now(n) <= t.deadline
  {
    if n > 0 {
      assert r.Step(n - 1);
      NoTimerIsLate(r, n - 1);
    }
  }

  /** A goroutine wakes exactly at its deadline. */
  lemma WakesOnTime(r: Run, i: nat)
    requires r.Valid() && i < |r.events| && r.events[i].Wake?
    ensures r.Now(i) == r.events[i].timer.deadline
  {
    assert r.Step(i);
    NoTimerIsLate(r, i);
  }

  /** Without commits and wake-ups for a name, its goroutines stay asleep and no others appear. */
  lemma {:induction false} SameSleepers(r: Run, i: nat, n: nat, timer: Timer)
    requires r.Valid() && i <= n <= |r.events|
    requires forall m :: i <= m < n ==> !r.Commits(m, timer.name) && !r.Wakes(m, timer.name)
    ensures r.Timers(i)[timer] == r.Timers(n)[timer]
  {
    if i < n {
      assert r.Step(n - 1);
      SameSleepers(r, i, n - 1, timer);
      assert !r.Commits(n - 1, timer.name) && !r.Wakes(n - 1, timer.name);
    }
  }

  /** Every sleeping goroutine was started by a commit of its name, `TRACKER_DURATION` before its deadline. */
  lemma {:induction false} SleepersHaveOrigin(r: Run, n: nat, timer: Timer) returns (k: nat)
    requires r.Valid() && n <= |r.events| && timer in r.Timers(n)
    ensures k < n && r.Commits(k, timer.name) && timer.deadline == r.Now(k) + TRACKER_DURATION
  {
    assert n > 0 && r.Step(n - 1);
    if r.Commits(n - 1, timer.name) && timer.deadline == r.Now(n - 1) + TRACKER_DURATION {
      k := n - 1;
    } else {
      assert timer in r.Timers(n - 1);
      k := SleepersHaveOrigin(r, n - 1, timer);
    }
  }

  lemma StaysAsleep(r: Run, i: nat, timer: Timer)
    requires r.Valid() && i < |r.events| && timer in r.Timers(i) && r.events[i] != Wake(timer)
    ensures timer in r.Timers(i + 1)
  {
    assert r.Step(i);
  }

  /** The goroutine a commit starts sleeps for the whole of `TRACKER_DURATION`. */
  lemma {:induction false} SleepsUntilDeadline(r: Run, k: nat, n: nat, name: string)
    requires r.Valid() && k < n <= |r.events| && r.Commits(k, name)
    requires r.Now(n) < r.Now(k) + TRACKER_DURATION
    ensures Timer(name, r.Now(k) + TRACKER_DURATION) in r.Timers(n)
  {
    if k < n - 1 {
      ClockIsMonotone(r, n - 1, n);
      SleepsUntilDeadline(r, k, n - 1, name);
      if r.events[n - 1].Wake? { WakesOnTime(r, n - 1); }
      StaysAsleep(r, n - 1, Timer(name, r.Now(k) + TRACKER_DURATION));
    } else {
      assert r.Step(k);
    }
  }

  /** Entries carry no progress of their own: what a scan reports is never stored. */
  lemma {:induction false} StoredEntriesCarryNoProgress(r: Run, n: nat)
    requires r.Valid() && n <= |r.events|
    ensures forall name :: name in r.States(n) ==>
      r.States(n)[name].localSize == 0 && r.States(n)[name].taskSummary == "" && IsTransient(r.States(n)[name].status)
    ensures forall c :: c in r.at[n].passed ==> IsTransient(r.at[n].passed[c].op)
  {
    if n > 0 {
      assert r.Step(n - 1);
      StoredEntriesCarryNoProgress(r, n - 1);
      forall name | name in r.States(n)
        ensures r.States(n)[name].localSize == 0 && r.States(n)[name].taskSummary == ""
        ensures IsTransient(r.States(n)[name].status)
      {
        EntryAfter(r, n - 1, name);
      }
    }
  }

  // ---------------------------------------------------------------- overwriting

  lemma {:induction false} FindCheck(r: Run, n: nat, call: nat) returns (j: nat)
    requires r.Valid() && n <= |r.events| && call in r.at[n].passed
    ensures j < n && r.events[j].Check? && r.events[j].call == call && call !in r.at[j].passed
    ensures forall m :: j < m <= n ==> call in r.at[m].passed && r.at[m].passed[call] == r.at[n].passed[call]
    ensures r.at[n].passed[call] == Passed(r.events[j].op, r.events[j].changeID, r.events[j].snap)
    ensures PassesCheck(r.States(j), r.events[j].op, r.events[j].snap)
  {
    assert n > 0 && r.Step(n - 1);
    if r.events[n - 1].Check? && r.events[n - 1].call == call {
      j := n - 1;
    } else {
      j := FindCheck(r, n - 1, call);
    }
  }

  /**
   When a commit at `i` replaces the entry that the commit at `k` inserted, the replacing call made its
   check either before that insertion, or on a snapshot that showed the inserted operation completed.
   */
  lemma Overwrite(r: Run, k: nat, i: nat, name: string) returns (j: nat)
    requires r.Valid() && k < i < |r.events| && r.Commits(k, name) && r.Commits(i, name)
    requires forall m :: k < m < i ==> !r.Touches(m, name)
    ensures name in r.States(i) && r.States(i)[name] == SnapState(r.Committed(k).op, r.Committed(k).changeID, 0, "")
    ensures r.ChecksFor(j, i) && r.Committed(i).snap == r.events[j].snap
    ensures j < k || HasOperationCompleted(r.Committed(k).op, r.events[j].snap)
  {
    assert r.Step(k);
    UntouchedEntry(r, k + 1, i, name);
    j := FindCheck(r, i, r.events[i].call);
    if k < j {
      UntouchedEntry(r, k + 1, j, name);
    }
    assert j != k;
  }

  /** Calls whose two parts nothing separates: a check that passes is committed by the very next event. */
  ghost predicate AtomicTracks(r: Run)
    requires |r.events| < |r.at|
  {
    forall j {:trigger r.events[j]} ::
      0 <= j < |r.events| - 1 && r.events[j].Check? && r.events[j].call in r.at[j + 1].passed ==>
      r.events[j + 1] == Commit(r.events[j].call)
  }

  lemma {:induction false} AtomicCommitFollowsCheck(r: Run, i: nat)
    requires r.Valid() && AtomicTracks(r) && i < |r.events|
    ensures r.at[i].passed == map[] || (i > 0 && r.events[i - 1].Check? && r.events[i].Commit?
                                        && r.at[i].passed.Keys == {r.events[i].call}
                                        && r.events[i - 1].call == r.events[i].call && r.at[i - 1].passed == map[])
  {
    if i > 0 {
      assert r.Step(i - 1);
      AtomicCommitFollowsCheck(r, i - 1);
      assert r.events[i - 1].Check? && r.events[i - 1].call in r.at[i].passed ==>
        r.events[i] == Commit(r.events[i - 1].call);
      if r.events[i - 1].Commit? {
        assert r.at[i].passed == map[];
      }
    }
  }

  /** Without interleaving, a commit only ever replaces an operation its own snapshot shows completed. */
  lemma AtomicNeverReplacesRunning(r: Run, i: nat, name: string)
    requires r.Valid() && AtomicTracks(r) && i < |r.events| && r.Commits(i, name) && name in r.States(i)
    ensures HasOperationCompleted(r.States(i)[name].status, r.Committed(i).snap)
  {
    AtomicCommitFollowsCheck(r, i);
    assert r.Step(i - 1);
  }
}
