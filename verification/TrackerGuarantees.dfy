/** What every run of the tracker keeps: expiry, staleness and the life cycle of a reported status. */
module TrackerGuarantees {
  import opened SnapTracking
  import opened TrackerRuns

  // ---------------------------------------------------------------- expiry

  /** `m` is the smallest deadline among the goroutines asleep for `name`. */
  ghost predicate IsNextDeadline(timers: multiset<Timer>, name: string, m: nat) {
    Timer(name, m) in timers && forall t :: t in timers && t.name == name ==> m <= t.deadline
  }

  /** Nothing but the expiry goroutines removes or replaces the entry of `name` from `i` up to `n`. */
  ghost predicate OnlyExpiry(r: Run, i: nat, n: nat, name: string)
    requires n <= |r.events| < |r.at|
  {
    forall m :: i <= m < n ==>
      !r.Commits(m, name) && (name in r.States(m) ==> !r.Cancels(m, name) && !r.Completes(m, name))
  }

  lemma {:induction false} NextDeadlineBelow(timers: multiset<Timer>, name: string, d: nat) returns (m: nat)
    requires Timer(name, d) in timers
    ensures IsNextDeadline(timers, name, m) && m <= d
    decreases d
  {
    m := d;
    if t :| t in timers && t.name == name && t.deadline < d {
      m := NextDeadlineBelow(timers, name, t.deadline);
    }
  }

  lemma ExpiryStep(r: Run, i: nat, name: string)
    requires r.Valid() && i < |r.events| && OnlyExpiry(r, i, i + 1, name)
    ensures name in r.States(i + 1) <==> name in r.States(i) && !r.Wakes(i, name)
    ensures name in r.States(i + 1) ==> r.States(i + 1)[name] == r.States(i)[name]
  {
    EntryAfter(r, i, name);
    assert !r.Commits(i, name);
  }

  /** While only expiry is at work, the entry is gone exactly when a goroutine for the name has woken. */
  lemma {:induction false} GoneIffWoken(r: Run, i: nat, n: nat, name: string)
    requires r.Valid() && i <= n <= |r.events| && OnlyExpiry(r, i, n, name) && name in r.States(i)
    ensures name in r.States(n) <==> forall f :: i <= f < n ==> !r.Wakes(f, name)
    ensures name in r.States(n) ==> r.States(n)[name] == r.States(i)[name]
  {
    if i < n {
      GoneIffWoken(r, i, n - 1, name);
      ExpiryStep(r, n - 1, name);
    }
  }

  /** The first goroutine of a name to wake is the one with the smallest deadline. */
  lemma FirstWakeIsNextDeadline(r: Run, i: nat, f: nat, name: string, m: nat)
    requires r.Valid() && i <= f < |r.events| && IsNextDeadline(r.Timers(i), name, m)
    requires r.Wakes(f, name) && forall e :: i <= e < f ==> !r.Commits(e, name) && !r.Wakes(e, name)
    ensures r.Now(f) == m
  {
    assert r.Step(f);
    WakesOnTime(r, f);
    SameSleepers(r, i, f, r.events[f].timer);
    SameSleepers(r, i, f, Timer(name, m));
    NoTimerIsLate(r, f);
  }

  /** Once the clock has passed the smallest deadline, some goroutine of that name has woken. */
  lemma PastDeadlineHasWoken(r: Run, i: nat, n: nat, name: string, m: nat) returns (f: nat)
    requires r.Valid() && i <= n <= |r.events| && IsNextDeadline(r.Timers(i), name, m) && m < r.Now(n)
    requires forall e :: i <= e < n ==> !r.Commits(e, name)
    ensures i <= f < n && r.Wakes(f, name)
  {
    if e :| i <= e < n && r.Wakes(e, name) {
      f := e;
    } else {
      SameSleepers(r, i, n, Timer(name, m));
      NoTimerIsLate(r, n);
      assert false;
    }
  }

  /**
   Exact expiry. The commit at `i` inserts an entry at time `t`; `m` is the smallest deadline among the
   goroutines asleep for that name right after it. Unless something else removes or replaces the entry, it
   is there, unchanged, before `m`, it is gone after `m`, and the goroutine that removes it wakes at `m`.
   */
  lemma ExactExpiry(r: Run, i: nat, n: nat, name: string, m: nat)
    requires r.Valid() && i < n <= |r.events| && r.Commits(i, name)
    requires OnlyExpiry(r, i + 1, n, name) && IsNextDeadline(r.Timers(i + 1), name, m)
    ensures r.Now(n) < m ==> name in r.States(n)
    ensures name in r.States(n) ==> r.States(n)[name] == SnapState(r.Committed(i).op, r.Committed(i).changeID, 0, "")
    ensures r.Now(n) > m ==> name !in r.States(n)
    ensures name !in r.States(n) ==> exists f :: i < f < n && r.Wakes(f, name) && r.Now(f) == m && name in r.States(f)
  {
    assert r.Step(i);
    GoneIffWoken(r, i + 1, n, name);
    if m < r.Now(n) {
      var _ := PastDeadlineHasWoken(r, i + 1, n, name, m);
    }
    if name !in r.States(n) {
      var f := FirstWake(r, i + 1, n, name);
      FirstWakeIsNextDeadline(r, i + 1, f, name, m);
      GoneIffWoken(r, i + 1, f, name);
      ClockIsMonotone(r, f, n);
    }
  }

  lemma {:induction false} FirstWake(r: Run, i: nat, n: nat, name: string) returns (f: nat)
    requires n <= |r.events| && exists e :: i <= e < n && r.Wakes(e, name)
    ensures i <= f < n && r.Wakes(f, name) && forall e :: i <= e < f ==> !r.Wakes(e, name)
    decreases n - i
  {
    if r.Wakes(i, name) { f := i; } else { f := FirstWake(r, i + 1, n, name); }
  }

  /** A name waiting in the map for its whole term, and when exactly it does. */
  lemma TermOfAnEntry(r: Run, i: nat, name: string) returns (m: nat)
    requires r.Valid() && i < |r.events| && r.Commits(i, name)
    ensures IsNextDeadline(r.Timers(i + 1), name, m)
    ensures r.Now(i) <= m <= r.Now(i) + TRACKER_DURATION
    ensures m == r.Now(i) + TRACKER_DURATION <==>
      && Timer(name, r.Now(i)) !in r.Timers(i)
      && forall k :: 0 <= k < i && r.Commits(k, name) ==>
        r.Now(k) + TRACKER_DURATION <= r.Now(i) || r.Now(k) == r.Now(i)
  {
    var t := r.Now(i);
    assert r.Step(i);
    m := NextDeadlineBelow(r.Timers(i + 1), name, t + TRACKER_DURATION);
    NoTimerIsLate(r, i + 1);
    if m < t + TRACKER_DURATION {
      assert Timer(name, m) in r.Timers(i);
      var k := SleepersHaveOrigin(r, i, Timer(name, m));
      ClockIsMonotone(r, k, i);
      assert m > t ==> r.Now(k) + TRACKER_DURATION > t && r.Now(k) != t;
    } else {
      forall k | 0 <= k < i && r.Commits(k, name)
        ensures r.Now(k) + TRACKER_DURATION <= t || r.Now(k) == t
      {
        ClockIsMonotone(r, k, i);
        if r.Now(k) + TRACKER_DURATION > t {
          SleepsUntilDeadline(r, k, i, name);
          assert Timer(name, r.Now(k) + TRACKER_DURATION) in r.Timers(i + 1);
        }
      }
    }
  }

  const NEW_RUN := Run([System(EMPTY_TRACKER, map[])], [])

  /** The run, and one event more. */
  function Then(r: Run, e: Event): (r': Run)
    requires r.Valid() && Enabled(r.at[|r.events|], e)
    ensures r'.Valid() && r'.events == r.events + [e]
    ensures r'.at == r.at + [Apply(r.at[|r.events|], e)]
  {
    var r' := Run(r.at + [Apply(r.at[|r.events|], e)], r.events + [e]);
    assert forall i :: 0 <= i < |r.events| ==> r.Step(i) && r'.Step(i);
    r'
  }

  /** An install tracked at 0 and cancelled, one term later: its goroutine is about to run. */
  lemma CancelledOneTermAgo() returns (r: Run)
    ensures r.Valid() && |r.events| == 4 && r.Commits(1, "s") && r.Now(1) == 0
    ensures forall i :: 0 <= i < 4 && i != 1 ==> !r.events[i].Commit?
    ensures r.at[4] == System(Tracker(map[], multiset{Timer("s", TRACKER_DURATION)}, TRACKER_DURATION), map[])
  {
    var p := Passed(Installing, "1", Snap("s", SnapdOther));
    var entry, sleeper := SnapState(Installing, "1", 0, ""), Timer("s", TRACKER_DURATION);
    r := Then(NEW_RUN, Check(0, Installing, "1", p.snap));
    assert r.at[1] == System(EMPTY_TRACKER, map[0 := p]);
    r := Then(r, Commit(0));
    assert r.at[2] == System(Tracker(map["s" := entry], multiset{sleeper}, 0), map[]);
    r := Then(r, CancelFor("s"));
    assert r.at[3] == System(Tracker(map[], multiset{sleeper}, 0), map[]);
    r := Then(r, Tick(TRACKER_DURATION));
  }

  /**
   The goroutine of a track made exactly one term ago may still be about to run. In this run the second
   install is tracked at `TRACKER_DURATION`, no track took effect in the half-open interval before it, and
   the entry is deleted at the very instant it was made.
   */
  lemma ExpiryAtTheBoundary() returns (r: Run)
    ensures r.Valid() && |r.events| == 7 && r.Commits(1, "s") && r.Commits(5, "s")
    ensures forall k :: 0 <= k < 5 && r.Commits(k, "s") ==> r.Now(k) + TRACKER_DURATION <= r.Now(5)
    ensures r.Now(5) == r.Now(6) == r.Now(7) == TRACKER_DURATION
    ensures "s" in r.States(6) && "s" !in r.States(7) && r.Wakes(6, "s")
  {
    r := CancelledOneTermAgo();
    r := Then(r, Check(1, Installing, "2", Snap("s", SnapdOther)));
    r := Then(r, Commit(1));
    r := Then(r, Wake(Timer("s", TRACKER_DURATION)));
  }

  // ---------------------------------------------------------------- the race between check and commit

  /** Two installs that both check first: the second commit replaces an operation still running. */
  lemma RaceReplacesRunningOperation() returns (r: Run)
    ensures r.Valid() && |r.events| == 4 && r.Commits(2, "s") && r.Commits(3, "s")
    ensures "s" in r.States(3) && !HasOperationCompleted(r.States(3)["s"].status, r.Committed(3).snap)
    ensures r.States(3)["s"].changeID == "1" && "s" in r.States(4) && r.States(4)["s"].changeID == "2"
  {
    var absent := Snap("s", SnapdOther);
    r := Then(NEW_RUN, Check(0, Installing, "1", absent));
    r := Then(r, Check(1, Installing, "2", absent));
    r := Then(r, Commit(0));
    r := Then(r, Commit(1));
  }

  // ---------------------------------------------------------------- staleness

  lemma EntryOutlivesStep(r: Run, n: nat, name: string)
    requires r.Valid() && n < |r.events| && name in r.States(n + 1) && !r.Commits(n, name)
    ensures name in r.States(n) && r.States(n)[name] == r.States(n + 1)[name]
    ensures forall d :: Timer(name, d) in r.Timers(n) ==> Timer(name, d) in r.Timers(n + 1)
  {
    assert r.Step(n);
  }

  /** A tracked name was last committed at most one term ago, and its own goroutine is still asleep. */
  lemma {:induction false} TrackedIsRecent(r: Run, n: nat, name: string) returns (k: nat)
    requires r.Valid() && n <= |r.events| && name in r.States(n)
    ensures r.LatestCommit(k, n, name)
    ensures r.States(n)[name] == SnapState(r.Committed(k).op, r.Committed(k).changeID, 0, "")
    ensures Timer(name, r.Now(k) + TRACKER_DURATION) in r.Timers(n)
  {
    assert n > 0;
    if r.Commits(n - 1, name) {
      assert r.Step(n - 1);
      k := n - 1;
    } else {
      EntryOutlivesStep(r, n - 1, name);
      k := TrackedIsRecent(r, n - 1, name);
    }
  }

  /** Progress scanning never changes which operation is reported. */
  lemma ProgressKeepsOperation(client: Client, stored: SnapState)
    ensures Progress(client, stored).status == stored.status && Progress(client, stored).changeID == stored.changeID
  {
  }

  /** `reply` names the operation of the latest commit of `name`, made at most one term ago at event `k`. */
  ghost predicate LastTracked(r: Run, k: nat, n: nat, name: string, reply: SnapState)
    requires n <= |r.events| < |r.at|
  {
    && r.LatestCommit(k, n, name)
    && reply.status == r.Committed(k).op && reply.changeID == r.Committed(k).changeID
    && r.Now(k) <= r.Now(n) <= r.Now(k) + TRACKER_DURATION
  }

  /**
   Bounded staleness. Whatever the run, the client and the snapshot, `State` either answers what the snapshot
   says, or answers the operation of the latest commit of that name, which is at most one term old and which
   the snapshot does not show completed. The name is still tracked afterwards in exactly the second case.
   */
  lemma BoundedStaleness(r: Run, n: nat, client: Client, snap: Snap)
    requires r.Valid() && n <= |r.events|
    ensures var reply, after := Reported(r.States(n), client, snap), AfterReport(r.States(n), snap);
      && (snap.name !in after ==> reply == Untracked(snap))
      && (snap.name in after <==> IsTransient(reply.status))
      && (snap.name in after ==> !HasOperationCompleted(reply.status, snap))
      && (snap.name in after ==> exists k :: LastTracked(r, k, n, snap.name, reply))
  {
    if snap.name in AfterReport(r.States(n), snap) {
      var k := TrackedIsRecent(r, n, snap.name);
      NoTimerIsLate(r, n);
      StoredEntriesCarryNoProgress(r, n);
      ProgressKeepsOperation(client, r.States(n)[snap.name]);
      ClockIsMonotone(r, k, n);
      assert LastTracked(r, k, n, snap.name, Reported(r.States(n), client, snap));
    }
  }

  /**
   Progress in every reachable state: a name still tracked after a report is answered with the operation of its
   latest commit, the size of the last task that moves on up to the first one being done, and the summary of
   that one; 0 and the empty text if there is no such task.
   */
  lemma ReachableProgress(r: Run, n: nat, change: string -> ChangeReply, snap: Snap, tasks: seq<Task>, f: nat, p: int)
    requires r.Valid() && n <= |r.events| && snap.name in AfterReport(r.States(n), snap)
    requires change(r.States(n)[snap.name].changeID) == Change(tasks)
    requires f <= |tasks| && (f < |tasks| ==> tasks[f].status == "Doing")
    requires forall j :: 0 <= j < f ==> tasks[j].status != "Doing"
    requires -1 <= p < (if f < |tasks| then f + 1 else f) && (p >= 0 ==> MovesOn(tasks[p].done))
    requires forall j :: p < j < (if f < |tasks| then f + 1 else f) ==> !MovesOn(tasks[j].done)
    ensures var reply := Reported(r.States(n), Client(change), snap);
      && (exists k: nat ::
            && r.LatestCommit(k, n, snap.name)
            && reply.status == r.Committed(k).op && reply.changeID == r.Committed(k).changeID)
      && reply.localSize == (if p >= 0 then AsUint64(tasks[p].done) else 0)
      && reply.taskSummary == (if f < |tasks| then tasks[f].summary else "")
  {
    var k := TrackedIsRecent(r, n, snap.name);
    ReportedProgress(r.States(n), change, snap, tasks, f, p);
  }

  // ---------------------------------------------------------------- goroutines

  /** How many commits before the state at `n` started a goroutine for `timer`. */
  ghost function Started(r: Run, n: nat, timer: Timer): nat
    requires n <= |r.events| < |r.at|
  {
    if n == 0 then 0
    else
      Started(r, n - 1, timer)
      + if r.Commits(n - 1, timer.name) && r.Now(n - 1) + TRACKER_DURATION == timer.deadline then 1 else 0
  }

  /** How many times a goroutine for `timer` has woken before the state at `n`. */
  ghost function Woken(r: Run, n: nat, timer: Timer): nat
    requires n <= |r.events|
  {
    if n == 0 then 0 else Woken(r, n - 1, timer) + if r.events[n - 1] == Wake(timer) then 1 else 0
  }

  /** Goroutines are conserved: every one a commit has started sleeps still or has woken, once. */
  lemma {:induction false} GoroutinesAreConserved(r: Run, n: nat, timer: Timer)
    requires r.Valid() && n <= |r.events|
    ensures Started(r, n, timer) == Woken(r, n, timer) + r.Timers(n)[timer]
  {
    if n > 0 {
      assert r.Step(n - 1);
      GoroutinesAreConserved(r, n - 1, timer);
    }
  }

  // ---------------------------------------------------------------- when a running operation is replaced

  lemma CheckIsUnique(r: Run, j: nat, i: nat)
    requires r.Valid() && i < |r.events| && r.ChecksFor(j, i) && r.events[i].call in r.at[i].passed
    ensures r.Committed(i).snap == r.events[j].snap && PassesCheck(r.States(j), r.events[j].op, r.events[j].snap)
  {
    var j' := FindCheck(r, i, r.events[i].call);
    assert j' == j;
  }

  /** An entry there at `n` that was not committed since `i` was there at `i`. */
  lemma {:induction false} EntryOutlives(r: Run, i: nat, n: nat, name: string)
    requires r.Valid() && i <= n <= |r.events| && name in r.States(n)
    requires forall m :: i <= m < n ==> !r.Commits(m, name)
    ensures name in r.States(i) && r.States(i)[name] == r.States(n)[name]
    ensures forall m :: i <= m < n ==> !r.Touches(m, name)
  {
    if i < n {
      EntryOutlivesStep(r, n - 1, name);
      assert r.Step(n - 1);
      EntryOutlives(r, i, n - 1, name);
    }
  }

  /** The call committed at `i` replaces an operation that its own snapshot does not show completed. */
  ghost predicate ReplacesRunning(r: Run, i: nat, name: string)
    requires r.Valid() && i < |r.events| && r.Commits(i, name)
  {
    name in r.States(i) && !HasOperationCompleted(r.States(i)[name].status, r.Committed(i).snap)
  }

  /** After the check at `j` another call committed the name, at `k`, an operation `snap` does not show completed. */
  ghost predicate SlipsIn(r: Run, j: nat, k: nat, i: nat, snap: Snap)
    requires i <= |r.events| < |r.at|
  {
    j < k < i && r.Commits(k, snap.name) && !HasOperationCompleted(r.Committed(k).op, snap)
  }

  lemma LatestSlippedIn(r: Run, j: nat, i: nat, name: string) returns (k: nat)
    requires r.Valid() && i < |r.events| && r.Commits(i, name) && r.ChecksFor(j, i) && ReplacesRunning(r, i, name)
    ensures SlipsIn(r, j, k, i, r.events[j].snap) && r.LatestCommit(k, i, name)
    ensures forall m :: k < m < i ==> !r.Touches(m, name)
  {
    CheckIsUnique(r, j, i);
    k := TrackedIsRecent(r, i, name);
    EntryOutlives(r, k + 1, i, name);
    if k < j { EntryOutlives(r, j, i, name); }
  }

  /**
   When the race happens. A commit replaces an operation still running exactly when another call committed the
   name after this call's check, nothing has touched the name since, and the snapshot this call had checked does
   not show the other operation completed.
   */
  lemma RunningIsReplacedIff(r: Run, j: nat, i: nat, name: string)
    requires r.Valid() && i < |r.events| && r.Commits(i, name) && r.ChecksFor(j, i)
    ensures ReplacesRunning(r, i, name) <==>
      exists k: nat :: SlipsIn(r, j, k, i, r.events[j].snap) && forall m :: k < m < i ==> !r.Touches(m, name)
    ensures ReplacesRunning(r, i, name) <==>
      name in r.States(i) && exists k: nat :: SlipsIn(r, j, k, i, r.Committed(i).snap) && r.LatestCommit(k, i, name)
  {
    CheckIsUnique(r, j, i);
    if ReplacesRunning(r, i, name) {
      var _ := LatestSlippedIn(r, j, i, name);
    }
    if k: nat :| SlipsIn(r, j, k, i, r.events[j].snap) && forall m :: k < m < i ==> !r.Touches(m, name) {
      assert r.Step(k);
      UntouchedEntry(r, k + 1, i, name);
    }
    if k: nat :| name in r.States(i) && SlipsIn(r, j, k, i, r.Committed(i).snap) && r.LatestCommit(k, i, name) {
      var k' := TrackedIsRecent(r, i, name);
      assert k' == k;
    }
  }

  // ---------------------------------------------------------------- life cycle

  /**
   The ways in which the operation `op` on `name` can end: the name is cancelled, one of its goroutines wakes, or
   a snapshot of it showing completion is handed to `State`, or to a `Track` method whose own test it passes.
   */
  ghost predicate Ends(r: Run, m: nat, name: string, op: Status)
    requires m < |r.events| < |r.at|
  {
    var e := r.events[m];
    || r.Cancels(m, name) || r.Wakes(m, name)
    || (e.Report? && e.snap.name == name && HasOperationCompleted(op, e.snap))
    || (e.Check? && e.snap.name == name && HasOperationCompleted(op, e.snap) && StartGuard(e.op, e.snap))
  }

  ghost predicate NoPassedCallFor(s: System, name: string) {
    forall c :: c in s.passed ==> s.passed[c].snap.name != name
  }

  lemma RunningEntryStep(r: Run, m: nat, name: string)
    requires r.Valid() && m < |r.events| && name in r.States(m) && NoPassedCallFor(r.at[m], name)
    requires !Ends(r, m, name, r.States(m)[name].status)
    ensures SameEntry(r.States(m), r.States(m + 1), name) && NoPassedCallFor(r.at[m + 1], name) && !r.Commits(m, name)
  {
    assert r.Step(m);
    EntryAfter(r, m, name);
  }

  lemma {:induction false} RunningEntryStays(r: Run, i: nat, n: nat, name: string)
    requires r.Valid() && i <= n <= |r.events| && name in r.States(i) && NoPassedCallFor(r.at[i], name)
    requires forall m :: i <= m < n ==> !Ends(r, m, name, r.States(i)[name].status)
    ensures SameEntry(r.States(i), r.States(n), name) && NoPassedCallFor(r.at[n], name)
    ensures forall m :: i <= m < n ==> !r.Commits(m, name)
  {
    if i < n {
      RunningEntryStays(r, i, n - 1, name);
      RunningEntryStep(r, n - 1, name);
    }
  }

  /** The operation of the commit at `k` is what a report at `n` would answer. */
  ghost predicate StillReported(r: Run, k: nat, n: nat, client: Client, snap: Snap)
    requires r.Valid() && n < |r.events|
  {
    var reply := Reported(r.States(n), client, snap);
    && IsTransient(reply.status) && r.LatestCommit(k, n, snap.name)
    && reply.status == r.Committed(k).op && reply.changeID == r.Committed(k).changeID
  }

  lemma ReportedIsLatest(r: Run, k: nat, n: nat, client: Client, snap: Snap)
    requires r.Valid() && n < |r.events| && r.LatestCommit(k, n, snap.name)
    ensures Runs(r.States(n), snap) ==> StillReported(r, k, n, client, snap)
    ensures IsTransient(Reported(r.States(n), client, snap).status) ==>
      && StillReported(r, k, n, client, snap)
      && r.States(n)[snap.name].status == r.Committed(k).op && !HasOperationCompleted(r.Committed(k).op, snap)
  {
    if Runs(r.States(n), snap) {
      var k' := TrackedIsRecent(r, n, snap.name);
      assert k' == k;
      StoredEntriesCarryNoProgress(r, n);
      ProgressKeepsOperation(client, r.States(n)[snap.name]);
    }
  }

  /** While the entry of a commit is there and no later one has come, nothing has ended its operation. */
  lemma PresentEntryHasNotEnded(r: Run, i: nat, m: nat, n: nat, name: string, op: Status)
    requires r.Valid() && AtomicTracks(r) && i <= m < n < |r.events| && !r.events[n].Commit?
    requires name in r.States(n) && r.States(n)[name].status == op && forall e :: i <= e < n ==> !r.Commits(e, name)
    ensures !Ends(r, m, name, op)
  {
    EntryOutlives(r, m, n, name);
    assert !r.Touches(m, name) && r.Step(m);
    if r.events[m].Check? && Ends(r, m, name, op) {
      assert r.events[m + 1] == Commit(r.events[m].call);
      assert r.Commits(m + 1, name);
    }
  }

  /** An operation running after a report, and that nothing has ended since, still runs. */
  lemma UnendedRuns(r: Run, k: nat, i: nat, n: nat, name: string)
    requires r.Valid() && AtomicTracks(r) && i < n < |r.events| && r.LatestCommit(k, i, name)
    requires r.events[i].Report? && r.events[i].snap.name == name && Runs(r.States(i), r.events[i].snap)
    requires r.States(i)[name].status == r.Committed(k).op
    requires r.events[n].Report? && r.events[n].snap.name == name
    requires !HasOperationCompleted(r.Committed(k).op, r.events[n].snap)
    requires forall m :: i < m < n ==> !Ends(r, m, name, r.Committed(k).op)
    ensures Runs(r.States(n), r.events[n].snap) && r.LatestCommit(k, n, name)
  {
    AtomicCommitFollowsCheck(r, i);
    assert r.Step(i);
    RunningEntryStays(r, i + 1, n, name);
  }

  /**
   Life cycle. With uninterrupted `Track` calls, an operation reported at `i`, made by the commit at `k`, is
   reported again at `n`, as the same operation of the same commit, if and only if nothing has ended it in
   between and the snapshot of the later report does not show it completed. Events of other names play no part.
   */
  lemma ReportedOperationPersists(r: Run, k: nat, i: nat, n: nat, client: Client, client': Client)
    requires r.Valid() && AtomicTracks(r) && i < n < |r.events|
    requires r.events[i].Report? && r.events[n].Report? && r.events[n].snap.name == r.events[i].snap.name
    requires IsTransient(Reported(r.States(i), client, r.events[i].snap).status)
    requires r.LatestCommit(k, i, r.events[i].snap.name)
    ensures StillReported(r, k, i, client, r.events[i].snap)
    ensures StillReported(r, k, n, client', r.events[n].snap) <==>
      && (forall m :: i < m < n ==> !Ends(r, m, r.events[i].snap.name, r.Committed(k).op))
      && !HasOperationCompleted(r.Committed(k).op, r.events[n].snap)
  {
    ReportedIsLatest(r, k, i, client, r.events[i].snap);
    if StillReported(r, k, n, client', r.events[n].snap) {
      ReportedIsLatest(r, k, n, client', r.events[n].snap);
      forall m | i < m < n ensures !Ends(r, m, r.events[i].snap.name, r.Committed(k).op) {
        PresentEntryHasNotEnded(r, i, m, n, r.events[i].snap.name, r.Committed(k).op);
      }
    } else if
      && (forall m :: i < m < n ==> !Ends(r, m, r.events[i].snap.name, r.Committed(k).op))
      && !HasOperationCompleted(r.Committed(k).op, r.events[n].snap)
    {
      UnendedRuns(r, k, i, n, r.events[i].snap.name);
      ReportedIsLatest(r, k, n, client', r.events[n].snap);
    }
  }

  /** Whatever is reported as under way is the operation of some commit, so the life cycle covers every report. */
  lemma TransientReportHasCommit(r: Run, n: nat, client: Client, snap: Snap) returns (k: nat)
    requires r.Valid() && n < |r.events| && IsTransient(Reported(r.States(n), client, snap).status)
    ensures StillReported(r, k, n, client, snap)
  {
    k := TrackedIsRecent(r, n, snap.name);
    ReportedIsLatest(r, k, n, client, snap);
  }

  // ---------------------------------------------------------------- leftover goroutines

  lemma {:induction false} StaysUntracked(r: Run, i: nat, n: nat, name: string)
    requires r.Valid() && i <= n <= |r.events| && name !in r.States(i)
    requires forall m :: i <= m < n ==> !r.Commits(m, name)
    ensures name !in r.States(n)
  {
    if i < n {
      assert r.Step(n - 1) && !r.Commits(n - 1, name);
      StaysUntracked(r, i, n - 1, name);
    }
  }

  /** A goroutine left over from a cancelled operation changes nothing unless the name is tracked again first. */
  lemma LeftoverWakeIsHarmless(r: Run, i: nat, n: nat, name: string)
    requires r.Valid() && i <= n < |r.events| && name !in r.States(i) && r.Wakes(n, name)
    requires forall m :: i <= m < n ==> !r.Commits(m, name)
    ensures r.States(n + 1) == r.States(n)
  {
    StaysUntracked(r, i, n, name);
    assert r.Step(n);
  }
}
