/**
 The package operations inside runs of the tracker: a start is the check and the commit of its call, an abort is a
 look-up and, if snapd agrees, a cancellation. Anything may happen before, after, and between the two parts of each.
 */
module OperationRuns {
  import opened Wrappers
  import opened SnapTracking
  import opened TrackerRuns
  import opened TrackerGuarantees
  import opened SnapOperations

  /** A start that reaches the tracker is a check, followed by a commit if the check passes. */
  lemma BeginIsCheckThenCommit(
      s: System, calls: seq<SnapdCall>, snapd: Snapd, name: string, op: Status, snap: Snap, call: nat)
    requires IsTransient(op) && GetSnap(snapd, name) == Ok(Some(snap)) && call !in s.passed
    ensures
      var started := snapd.start(StartCall(op, name));
      var checked := Apply(s, Check(call, op, started.changeID, snap));
      Begin(State(s.tracker, calls), snapd, name, op).0.tracker ==
        if MayCall(op, snap) && TracksOutcome(op, started) && call in checked.passed
        then Apply(checked, Commit(call)).tracker
        else s.tracker
  {
    TrackIsCheckThenCommit(s, call, op, snapd.start(StartCall(op, name)).changeID, snap);
  }

  /** The change an abort asks snapd to abort, from the unlocked look at the map; none if nothing runs. */
  function LookUp(states: map<string, SnapState>, snapd: Snapd, name: string): Option<string> {
    match GetSnap(snapd, name)
    case Err(_) => None
    case Ok(None) => None
    case Ok(Some(snap)) => if Runs(states, snap) then Some(states[snap.name].changeID) else None
  }

  /**
   An abort that nothing interrupts is its look-up, the request to snapd, and, if snapd agrees, the cancellation of the
   requested name. In a run the look-up and the cancellation are apart, and the map may change in between.
   */
  lemma AbortIsLookUpThenCancel(s: System, calls: seq<SnapdCall>, snapd: Snapd, name: string)
    ensures Abort(State(s.tracker, calls), snapd, name) ==
      match LookUp(s.tracker.states, snapd, name)
      case None => (State(s.tracker, calls), false)
      case Some(changeID) =>
        var refused := snapd.abort(changeID).Some?;
        var after := if refused then s.tracker else Apply(s, CancelFor(name)).tracker;
        (State(after, calls + [AbortCall(changeID)]), !refused)
  {
  }

  /**
   Start, then abort, with time and other names moving in between. The operation committed at `i` is not cancelled,
   completed or committed again before `j`, where an abort looks it up and sees `snap`. It finds an operation exactly
   when no goroutine of the name has woken since and `snap` does not show completion, and then it is the very change of
   that commit. `m` is the smallest deadline of the name right after the commit: before it only the snapshot matters,
   after it nothing is found.
   */
  lemma StartThenAbortInRun(r: Run, i: nat, j: nat, snapd: Snapd, name: string, snap: Snap, m: nat)
    requires r.Valid() && i < j <= |r.events| && r.Commits(i, snap.name) && OnlyExpiry(r, i + 1, j, snap.name)
    requires GetSnap(snapd, name) == Ok(Some(snap)) && IsNextDeadline(r.Timers(i + 1), snap.name, m)
    ensures
      var p, found := r.Committed(i), LookUp(r.States(j), snapd, name);
      && (found.Some? <==> (forall f :: i < f < j ==> !r.Wakes(f, snap.name)) && !HasOperationCompleted(p.op, snap))
      && (found.Some? ==> found.value == p.changeID)
      && (r.Now(j) < m ==> (found.Some? <==> !HasOperationCompleted(p.op, snap)))
      && (r.Now(j) > m ==> found.None?)
  {
    EntryAfter(r, i, snap.name);
    GoneIffWoken(r, i + 1, j, snap.name);
    ExactExpiry(r, i, j, snap.name, m);
  }

  /** The cancellation at `n` removes an entry that is not that of the commit at `k`. */
  ghost predicate CancelsAnother(r: Run, k: nat, n: nat, name: string)
    requires n < |r.events| < |r.at|
  {
    r.Cancels(n, name) && name in r.States(n) && !r.LatestCommit(k, n, name)
  }

  /**
   When an abort cancels another operation than the one it asked snapd to abort. It looked at the map at `j`, where
   the latest commit of the name was the one at `k`, and cancels at `n`: it removes a different entry exactly when
   the name was committed again after the look-up and nothing has touched it since.
   */
  lemma AbortCancelsAnotherIff(r: Run, k: nat, j: nat, n: nat, name: string)
    requires r.Valid() && j <= n < |r.events| && r.LatestCommit(k, j, name) && r.Cancels(n, name)
    ensures CancelsAnother(r, k, n, name) <==>
      exists k': nat :: j <= k' < n && r.Commits(k', name) && forall m :: k' < m < n ==> !r.Touches(m, name)
  {
    if CancelsAnother(r, k, n, name) {
      var k' := TrackedIsRecent(r, n, name);
      EntryOutlives(r, k' + 1, n, name);
      assert k' >= j;
    }
    if k': nat :| j <= k' < n && r.Commits(k', name) && forall m :: k' < m < n ==> !r.Touches(m, name) {
      EntryAfter(r, k', name);
      UntouchedEntry(r, k' + 1, n, name);
    }
  }

  lemma InstalledOnce(snap: Snap) returns (r: Run)
    requires !IsInstalled(snap)
    ensures r.Valid() && |r.events| == 2 && r.LatestCommit(1, 2, snap.name)
    ensures r.States(2) == map[snap.name := SnapState(Installing, "1", 0, "")] && r.at[2].passed == map[]
  {
    r := Then(NEW_RUN, Check(0, Installing, "1", snap));
    assert r.at[1].passed == map[0 := Passed(Installing, "1", snap)];
    r := Then(r, Commit(0));
  }

  /**
   A run in which that happens: the abort that looks at event 2 asks for change "1", and its cancellation, event 5,
   removes the entry of change "2", because another abort and another install came in between.
   */
  lemma AbortCancelsAnother(snapd: Snapd, snap: Snap) returns (r: Run)
    requires GetSnap(snapd, snap.name) == Ok(Some(snap)) && !IsInstalled(snap)
    ensures r.Valid() && |r.events| == 6 && r.LatestCommit(1, 2, snap.name)
    ensures LookUp(r.States(2), snapd, snap.name) == Some("1")
    ensures CancelsAnother(r, 1, 5, snap.name) && r.States(5)[snap.name].changeID == "2"
  {
    r := InstalledOnce(snap);
    r := Then(r, CancelFor(snap.name));
    assert r.States(3) == map[];
    r := Then(r, Check(1, Installing, "2", snap));
    assert r.at[4].passed == map[1 := Passed(Installing, "2", snap)];
    r := Then(r, Commit(1));
    assert r.States(5) == map[snap.name := SnapState(Installing, "2", 0, "")];
    r := Then(r, CancelFor(snap.name));
    assert r.Commits(4, snap.name);
  }

  /** A name untracked before the commit at `i` and cancelled at `n` stays untracked until it is tracked again. */
  lemma {:induction false} CancelledStaysUntracked(r: Run, n: nat, p: nat, name: string)
    requires r.Valid() && n < p <= |r.events| && r.Cancels(n, name)
    requires forall e :: n < e < p ==> !r.Commits(e, name)
    ensures name !in r.States(p)
    ensures forall f :: n < f < p && r.Wakes(f, name) ==> r.States(f + 1) == r.States(f)
  {
    EntryAfter(r, n, name);
    StaysUntracked(r, n + 1, p, name);
    forall f | n < f < p && r.Wakes(f, name) ensures r.States(f + 1) == r.States(f) {
      LeftoverWakeIsHarmless(r, n + 1, f, name);
    }
  }

  lemma SameEntriesSameMap(a: map<string, SnapState>, b: map<string, SnapState>)
    requires forall name :: SameEntry(a, b, name)
    ensures a == b
  {
    assert forall name :: name in a <==> name in b by {
      forall name ensures name in a <==> name in b { assert SameEntry(a, b, name); }
    }
    forall name | name in a ensures a[name] == b[name] { assert SameEntry(a, b, name); }
  }

  /**
   After the abort. A name untracked before the commit at `i` and cancelled at `n` is untracked again at every `p`
   until it is committed once more, whatever goroutines for it wake; other entries are what they were unless
   something touched them, and if nothing did, the whole map is restored.
   */
  lemma AbortRestores(r: Run, i: nat, n: nat, p: nat, name: string)
    requires r.Valid() && i < n < p <= |r.events| && r.Commits(i, name) && name !in r.States(i) && r.Cancels(n, name)
    requires forall e :: n < e < p ==> !r.Commits(e, name)
    ensures SameEntry(r.States(i), r.States(p), name)
    ensures forall f :: n < f < p && r.Wakes(f, name) ==> r.States(f + 1) == r.States(f)
    ensures forall other ::
      other != name && (forall e :: i <= e < p ==> !r.Touches(e, other)) ==> SameEntry(r.States(i), r.States(p), other)
    ensures (forall e, other :: i <= e < p && other != name ==> !r.Touches(e, other)) ==> r.States(p) == r.States(i)
  {
    CancelledStaysUntracked(r, n, p, name);
    forall other | other != name && forall e :: i <= e < p ==> !r.Touches(e, other)
      ensures SameEntry(r.States(i), r.States(p), other)
    {
      UntouchedEntry(r, i, p, other);
    }
    if forall e, other :: i <= e < p && other != name ==> !r.Touches(e, other) {
      SameEntriesSameMap(r.States(i), r.States(p));
    }
  }
}
