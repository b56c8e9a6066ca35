/**
 The package operations of the web API: each asks snapd for a snapshot, asks it to start or abort a change,
 and keeps the tracker informed. snapd is an environment; every call is given the answers it would make.
 */
module SnapOperations {
  import opened Wrappers
  import opened SnapTracking

  datatype SnapdCall =
    | InstallCall(name: string) | RemoveCall(name: string)
    | EnableCall(name: string) | DisableCall(name: string)
    | AbortCall(changeID: string)

  /** snapd returns a change ID even together with an error. */
  datatype Started = Started(changeID: string, error: Option<string>)

  datatype Snapd = Snapd(
    snap: string -> Reply<Option<Snap>>,
    findOne: string -> Reply<Option<Snap>>,
    start: SnapdCall -> Started,
    abort: string -> Option<string>,
    change: string -> ChangeReply)

  datatype State = State(tracker: Tracker, calls: seq<SnapdCall>)

  datatype Payload = Payload(id: string, status: Status, taskSummary: string, localSize: nat)

  // ---------------------------------------------------------------- the operations on values

  /** Installed snaps first, the store as a fallback; `Ok(None)` is a nil snap with a nil error. */
  function GetSnap(snapd: Snapd, name: string): Reply<Option<Snap>> {
    match snapd.snap(name)
    case Ok(snap) => Ok(snap)
    case Err(_) =>
      match snapd.findOne(name)
      case Err(e) => Err(e)
      case Ok(None) => Err("snap could not be retrieved")
      case Ok(Some(snap)) => Ok(Some(snap))
  }

  function StartCall(op: Status, name: string): SnapdCall
    requires IsTransient(op)
  {
    match op
    case Installing => InstallCall(name)
    case Uninstalling => RemoveCall(name)
    case Enabling => EnableCall(name)
    case Disabling => DisableCall(name)
  }

  /** Install and remove leave the decision to snapd and to the tracker; enable and disable look first. */
  predicate MayCall(op: Status, snap: Snap) {
    (op.Enabling? ==> snap.status.SnapdInstalled?) && (op.Disabling? ==> snap.status.SnapdActive?)
  }

  /** Install and remove are tracked even when snapd refused them. */
  predicate TracksOutcome(op: Status, started: Started) {
    op.Installing? || op.Uninstalling? || started.error.None?
  }

  function Begin(h: State, snapd: Snapd, name: string, op: Status): (State, bool)
    requires IsTransient(op)
  {
    match GetSnap(snapd, name)
    case Err(_) => (h, false)
    case Ok(None) => (h, false)
    case Ok(Some(snap)) =>
      if !MayCall(op, snap) then (h, false)
      else
        var started := snapd.start(StartCall(op, name));
        var tracker := if TracksOutcome(op, started) then Track(h.tracker, op, started.changeID, snap) else h.tracker;
        (State(tracker, h.calls + [StartCall(op, name)]), started.error.None?)
  }

  function Abort(h: State, snapd: Snapd, name: string): (State, bool) {
    match GetSnap(snapd, name)
    case Err(_) => (h, false)
    case Ok(None) => (h, false)
    case Ok(Some(snap)) =>
      if !Runs(h.tracker.states, snap) then (h, false)
      else
        var changeID := h.tracker.states[snap.name].changeID;
        var refused := snapd.abort(changeID).Some?;
        (State(if refused then h.tracker else Cancel(h.tracker, name), h.calls + [AbortCall(changeID)]), !refused)
  }

  function PayloadOf(snap: Snap, state: SnapState): Payload {
    Payload(snap.name, state.status, state.taskSummary, state.localSize)
  }

  /** Which snapshot a request is about: that of an installed snap if there is one, otherwise what the store finds. */
  lemma InstalledSnapWins(snapd: Snapd, name: string, snap: Snap)
    ensures GetSnap(snapd, name) == Ok(Some(snap)) <==>
      snapd.snap(name) == Ok(Some(snap)) || (snapd.snap(name).Err? && snapd.findOne(name) == Ok(Some(snap)))
    ensures GetSnap(snapd, name).Err? <==>
      snapd.snap(name).Err? && (snapd.findOne(name).Err? || snapd.findOne(name) == Ok(None))
    ensures snapd.snap(name).Err? && snapd.findOne(name).Err? ==>
      GetSnap(snapd, name) == Err(snapd.findOne(name).error)
  {
  }

  // ---------------------------------------------------------------- start, then look

  /** The settled statuses an operation is meant to end in. */
  function Goals(op: Status): set<Status>
    requires IsTransient(op)
  {
    match op
    case Installing => {Installed, Active}
    case Uninstalling => {Uninstalled, Priced}
    case Enabling => {Active}
    case Disabling => {Installed}
  }

  /**
   The guard of the tracker's own methods: an operation is tracked for exactly the snapshots that do not show its
   goal, given that the request looked for an installed and disabled snap before enabling, an active one before
   disabling.
   */
  lemma GuardIsOpenGoal(op: Status, snap: Snap)
    requires IsTransient(op)
    requires op == Enabling ==> snap.status == SnapdInstalled
    requires op == Disabling ==> snap.status == SnapdActive
    ensures StartGuard(op, snap) <==> TranslateStatus(snap) !in Goals(op)
  {
  }

  /** Without that look, an installation needs a snap that is not installed, and the others need one that is. */
  lemma GuardIs(op: Status, snap: Snap)
    ensures StartGuard(op, snap) <==>
      || (op == Installing && TranslateStatus(snap) in {Uninstalled, Priced})
      || (op in {Uninstalling, Enabling, Disabling} && TranslateStatus(snap) in {Installed, Active})
  {
  }

  /** A request may go to snapd: there is a snapshot, disabled before enabling and active before disabling. */
  ghost predicate MayStart(snapd: Snapd, name: string, op: Status) {
    var reply := GetSnap(snapd, name);
    && reply.Ok? && reply.value.Some?
    && (op == Enabling ==> reply.value.value.status == SnapdInstalled)
    && (op == Disabling ==> reply.value.value.status == SnapdActive)
  }

  /**
   What a start asks of snapd, and what it makes of the answer. `call` is the request the operation is named
   after; it is the only call, it is made exactly when the snapshot allows it, and its outcome is that of the start.
   The tracker changes exactly when, besides, nothing runs, the goal is open and snapd agreed or was asked to
   install or remove; the change it stores is the one snapd returned for this very call.
   */
  lemma StartsAsNamed(h: State, snapd: Snapd, name: string, op: Status, call: SnapdCall)
    requires
      || (op == Installing && call == InstallCall(name)) || (op == Uninstalling && call == RemoveCall(name))
      || (op == Enabling && call == EnableCall(name)) || (op == Disabling && call == DisableCall(name))
    ensures var (after, ok) := Begin(h, snapd, name, op);
      if MayStart(snapd, name, op) then
        var snap, started := GetSnap(snapd, name).value.value, snapd.start(call);
        && after.calls == h.calls + [call]
        && (ok <==> started.error == None)
        && (if TranslateStatus(snap) !in Goals(op) && !Runs(h.tracker.states, snap)
               && (ok || op == Installing || op == Uninstalling)
            then after.tracker == Insert(h.tracker, op, started.changeID, snap.name)
            else after.tracker == h.tracker)
      else after == h && !ok
  {
    if MayStart(snapd, name, op) {
      GuardIsOpenGoal(op, GetSnap(snapd, name).value.value);
    }
  }

  /**
   An operation accepted for a snap on which nothing runs is what `State` reports of that same snapshot, with the
   change snapd returned; and it goes on being reported for exactly the snapshots that do not show its goal.
   */
  lemma StartThenReport(h: State, snapd: Snapd, client: Client, name: string, op: Status, snap: Snap, later: Snap)
    requires IsTransient(op) && GetSnap(snapd, name) == Ok(Some(snap)) && !Runs(h.tracker.states, snap)
    requires MayStart(snapd, name, op) && TranslateStatus(snap) !in Goals(op)
    requires snapd.start(StartCall(op, name)).error == None || op in {Installing, Uninstalling}
    requires later.name == snap.name
    ensures
      var states := Begin(h, snapd, name, op).0.tracker.states;
      var now, then' := Reported(states, client, snap), Reported(states, client, later);
      && now.status == op && now.changeID == snapd.start(StartCall(op, name)).changeID
      && (TranslateStatus(later) !in Goals(op) ==> then'.status == op)
      && (TranslateStatus(later) in Goals(op) ==> then' == Untracked(later) && snap.name !in AfterReport(states, later))
  {
    StartsAsNamed(h, snapd, name, op, StartCall(op, name));
    var stored := SnapState(op, snapd.start(StartCall(op, name)).changeID, 0, "");
    assert Begin(h, snapd, name, op).0.tracker.states == h.tracker.states[snap.name := stored];
    assert HasOperationCompleted(op, later) <==> TranslateStatus(later) in Goals(op);
  }

  // ---------------------------------------------------------------- start, then abort

  lemma InsertedThenRemoved(states: map<string, SnapState>, inserted: string, entry: SnapState, removed: string)
    requires inserted !in states
    ensures states[inserted := entry] - {removed} == states <==> inserted == removed
  {
    assert states[inserted := entry] - {inserted} == states;
    if inserted != removed {
      assert inserted in states[inserted := entry] - {removed};
    }
  }

  /** An abort of an operation tracked just before, for a name untracked until then. */
  lemma AbortInserted(
      t: Tracker, calls: seq<SnapdCall>, later: Snapd, name: string, op: Status, changeID: string, snap: Snap)
    requires IsTransient(op) && snap.name !in t.states && GetSnap(later, name) == Ok(Some(snap))
    requires later.abort(changeID).None?
    ensures
      var h := State(Insert(t, op, changeID, snap.name), calls);
      var (aborted, ok) := Abort(h, later, name);
      var leftover := Timer(snap.name, t.now + TRACKER_DURATION);
      && (ok <==> !HasOperationCompleted(op, snap))
      && (if ok then aborted == State(Cancel(h.tracker, name), calls + [AbortCall(changeID)]) else aborted == h)
      && aborted.tracker.timers == t.timers + multiset{leftover}
      && (ok ==> (aborted.tracker.states == t.states <==> snap.name == name))
      && (ok && snap.name == name ==> Fire(aborted.tracker, leftover) == t)
  {
    InsertedThenRemoved(t.states, snap.name, SnapState(op, changeID, 0, ""), name);
    assert t.states - {snap.name} == t.states;
    var leftover := multiset{Timer(snap.name, t.now + TRACKER_DURATION)};
    assert t.timers + leftover - leftover == t.timers;
  }

  /**
   An operation started on an untracked snap and aborted while a snapshot still shows it unfinished. snapd is
   asked to abort the very change it returned, and every goroutine but the new one is as before. The tracked
   map is restored exactly when the snap carries the name it was asked for, and then the goroutine left
   behind has nothing to delete.
   */
  lemma StartThenAbort(h: State, before: Snapd, later: Snapd, name: string, op: Status, snap: Snap, snap': Snap)
    requires IsTransient(op) && GetSnap(before, name) == Ok(Some(snap)) && snap.name !in h.tracker.states
    requires MayStart(before, name, op) && TranslateStatus(snap) !in Goals(op)
    requires before.start(StartCall(op, name)).error == None || op in {Installing, Uninstalling}
    requires GetSnap(later, name) == Ok(Some(snap')) && snap'.name == snap.name
    requires later.abort(before.start(StartCall(op, name)).changeID).None?
    ensures
      var changeID := before.start(StartCall(op, name)).changeID;
      var started := Begin(h, before, name, op).0;
      var (aborted, ok) := Abort(started, later, name);
      var leftover := Timer(snap.name, h.tracker.now + TRACKER_DURATION);
      && started.tracker.states == h.tracker.states[snap.name := SnapState(op, changeID, 0, "")]
      && (ok <==> !HasOperationCompleted(op, snap'))
      && (ok ==> aborted.calls == h.calls + [StartCall(op, name), AbortCall(changeID)])
      && (!ok ==> aborted == started)
      && aborted.tracker.timers == h.tracker.timers + multiset{leftover}
      && (ok ==> (aborted.tracker.states == h.tracker.states <==> snap.name == name))
      && (ok && snap.name == name ==> Fire(aborted.tracker, leftover) == h.tracker)
  {
    StartsAsNamed(h, before, name, op, StartCall(op, name));
    var changeID := before.start(StartCall(op, name)).changeID;
    AbortInserted(h.tracker, h.calls + [StartCall(op, name)], later, name, op, changeID, snap');
    var calls := h.calls + [StartCall(op, name)];
    assert calls + [AbortCall(changeID)] == h.calls + [StartCall(op, name), AbortCall(changeID)];
  }

  /** A start that snapd refuses changes the tracker for install and remove only, and then just as a success would. */
  lemma RefusedStart(h: State, snapd: Snapd, name: string, op: Status, snap: Snap)
    requires IsTransient(op) && GetSnap(snapd, name) == Ok(Some(snap)) && snapd.start(StartCall(op, name)).error.Some?
    ensures !Begin(h, snapd, name, op).1
    ensures Begin(h, snapd, name, op).0.tracker != h.tracker <==>
      op in {Installing, Uninstalling} && TranslateStatus(snap) !in Goals(op) && !Runs(h.tracker.states, snap)
  {
    var timer := Timer(snap.name, h.tracker.now + TRACKER_DURATION);
    assert (h.tracker.timers + multiset{timer})[timer] == h.tracker.timers[timer] + 1;
  }

  // ---------------------------------------------------------------- the order of names

  predicate StringLeq(a: string, b: string) {
    a == [] || (b != [] && (a[0] < b[0] || (a[0] == b[0] && StringLeq(a[1..], b[1..]))))
  }

  lemma {:induction false} StringLeqTotal(a: string, b: string)
    ensures StringLeq(a, b) || StringLeq(b, a)
    ensures StringLeq(a, b) && StringLeq(b, a) ==> a == b
  {
    if a != [] && b != [] {
      StringLeqTotal(a[1..], b[1..]);
      assert a == [a[0]] + a[1..] && b == [b[0]] + b[1..];
    }
  }

  lemma {:induction false} StringLeqTransitive(a: string, b: string, c: string)
    requires StringLeq(a, b) && StringLeq(b, c)
    ensures StringLeq(a, c)
  {
    if a != [] && a[0] == b[0] == c[0] {
      StringLeqTransitive(a[1..], b[1..], c[1..]);
    }
  }

  /** The order of the names is the lexicographic one: a prefix comes first, else the first difference decides. */
  lemma {:induction false} StringLeqIsLexicographic(a: string, b: string)
    ensures StringLeq(a, b) <==> a <= b || exists i :: DecidesAt(a, b, i)
  {
    if a != [] && b != [] && a[0] == b[0] {
      StringLeqIsLexicographic(a[1..], b[1..]);
      if i :| DecidesAt(a[1..], b[1..], i) { assert DecidesAt(a, b, i + 1); }
      if i :| DecidesAt(a, b, i) {
        assert i > 0 && a[..i][1..] == a[1..][..i - 1] && b[..i][1..] == b[1..][..i - 1];
        assert DecidesAt(a[1..], b[1..], i - 1);
      }
      assert a == [a[0]] + a[1..] && b == [b[0]] + b[1..];
    } else if a != [] && b != [] {
      if a[0] < b[0] { assert DecidesAt(a, b, 0); }
      if i :| DecidesAt(a, b, i) { assert i > 0 ==> a[..i][0] == b[..i][0]; }
    }
  }

  ghost predicate DecidesAt(a: string, b: string, i: int) {
    0 <= i < |a| && i < |b| && a[..i] == b[..i] && a[i] < b[i]
  }

  ghost predicate IsSorted(names: seq<string>) {
    forall i, j :: 0 <= i < j < |names| ==> StringLeq(names[i], names[j])
  }

  /** `names` are the elements of `all`, each once, in order: what `sort.Strings` makes of the keys of a map. */
  ghost predicate IsSortedListOf(names: seq<string>, all: set<string>) {
    IsSorted(names) && multiset(names) == multiset(all)
  }

  lemma SortedHeadsAgree(a: seq<string>, b: seq<string>)
    requires IsSorted(a) && IsSorted(b) && multiset(a) == multiset(b) && a != [] && b != []
    ensures a[0] == b[0]
  {
    assert a[0] in multiset(b) && a[0] in b;
    assert b[0] in multiset(a) && b[0] in a;
    StringLeqTotal(a[0], b[0]);
    StringLeqTotal(a[0], a[0]);
  }

  lemma TailMultiset(a: seq<string>)
    requires a != []
    ensures multiset(a[1..]) == multiset(a) - multiset{a[0]}
  {
    assert a == [a[0]] + a[1..];
  }

  /** The sorted listing does not depend on the order in which the map was visited. */
  lemma {:induction false} SortedListIsUnique(a: seq<string>, b: seq<string>)
    requires IsSorted(a) && IsSorted(b) && multiset(a) == multiset(b)
    ensures a == b
  {
    assert |multiset(a)| == |a| && |multiset(b)| == |b|;
    if a != [] {
      SortedHeadsAgree(a, b);
      TailMultiset(a);
      TailMultiset(b);
      SortedListIsUnique(a[1..], b[1..]);
      assert a == [a[0]] + a[1..] && b == [b[0]] + b[1..];
    }
  }

  lemma InsertKeepsSorted(sorted: seq<string>, i: nat, x: string)
    requires IsSorted(sorted) && i <= |sorted|
    requires forall j :: 0 <= j < i ==> StringLeq(sorted[j], x)
    requires i < |sorted| ==> !StringLeq(sorted[i], x)
    ensures IsSorted(sorted[..i] + [x] + sorted[i..])
    ensures multiset(sorted[..i] + [x] + sorted[i..]) == multiset(sorted) + multiset{x}
  {
    forall j | i <= j < |sorted| ensures StringLeq(x, sorted[j]) {
      StringLeqTotal(sorted[i], x);
      if i < j { StringLeqTransitive(x, sorted[i], sorted[j]); }
    }
    assert sorted == sorted[..i] + sorted[i..];
  }

  method SortStrings(names: seq<string>) returns (sorted: seq<string>)
    ensures IsSorted(sorted) && multiset(sorted) == multiset(names)
  {
    sorted := [];
    for n := 0 to |names|
      invariant IsSorted(sorted) && multiset(sorted) == multiset(names[..n])
    {
      var i := 0;
      while i < |sorted| && StringLeq(sorted[i], names[n])
        invariant i <= |sorted| && forall j :: 0 <= j < i ==> StringLeq(sorted[j], names[n])
      {
        i := i + 1;
      }
      InsertKeepsSorted(sorted, i, names[n]);
      assert names[..n + 1] == names[..n] + [names[n]];
      sorted := sorted[..i] + [names[n]] + sorted[i..];
    }
    assert names[..|names|] == names;
  }

  // ---------------------------------------------------------------- the tracked listing

  predicate Answers(snapd: Snapd, name: string) {
    GetSnap(snapd, name).Ok? && GetSnap(snapd, name).value.Some?
  }

  /** The snapshots of the longest prefix of `names` that snapd answers for. */
  function Listed(snapd: Snapd, names: seq<string>): seq<Snap> {
    if names == [] || !Answers(snapd, names[0]) then []
    else [GetSnap(snapd, names[0]).value.value] + Listed(snapd, names[1..])
  }

  lemma {:induction false} ListedIsLongestPrefix(snapd: Snapd, names: seq<string>)
    ensures var snaps := Listed(snapd, names);
      && |snaps| <= |names| && (|snaps| < |names| ==> !Answers(snapd, names[|snaps|]))
      && forall i :: 0 <= i < |snaps| ==> GetSnap(snapd, names[i]) == Ok(Some(snaps[i]))
  {
    if names != [] { ListedIsLongestPrefix(snapd, names[1..]); }
  }

  function AfterListing(states: map<string, SnapState>, snaps: seq<Snap>): map<string, SnapState> {
    if snaps == [] then states
    else AfterReport(AfterListing(states, snaps[..|snaps| - 1]), snaps[|snaps| - 1])
  }

  function Payloads(states: map<string, SnapState>, client: Client, snaps: seq<Snap>): (ps: seq<Payload>)
    ensures |ps| == |snaps|
  {
    if snaps == [] then []
    else
      var init, last := snaps[..|snaps| - 1], snaps[|snaps| - 1];
      Payloads(states, client, init) + [PayloadOf(last, Reported(AfterListing(states, init), client, last))]
  }

  /** What a listing takes out of the tracker: the names for which it met a snapshot showing completion. */
  lemma {:induction false} ListingDropsCompleted(states: map<string, SnapState>, snaps: seq<Snap>, name: string)
    ensures name in AfterListing(states, snaps) <==>
      name in states && forall s :: s in snaps && s.name == name ==> !HasOperationCompleted(states[name].status, s)
    ensures name in AfterListing(states, snaps) ==> AfterListing(states, snaps)[name] == states[name]
  {
    if snaps != [] {
      var init, last := snaps[..|snaps| - 1], snaps[|snaps| - 1];
      ListingDropsCompleted(states, init, name);
      assert snaps == init + [last];
      assert last in snaps;
      assert forall s :: s in snaps <==> s in init || s == last;
    }
  }

  /** When the snapshots carry different names, each payload is what `State` would answer before the listing. */
  lemma {:induction false} PayloadsOfDistinctNames(
      states: map<string, SnapState>, client: Client, snaps: seq<Snap>, i: nat)
    requires forall j, k :: 0 <= j < k < |snaps| ==> snaps[j].name != snaps[k].name
    requires i < |snaps|
    ensures Payloads(states, client, snaps)[i] == PayloadOf(snaps[i], Reported(states, client, snaps[i]))
  {
    var init, last := snaps[..|snaps| - 1], snaps[|snaps| - 1];
    if i < |snaps| - 1 {
      PayloadsOfDistinctNames(states, client, init, i);
    } else {
      ListingDropsCompleted(states, init, last.name);
      forall s | s in init ensures s.name != last.name {
        var j :| 0 <= j < |init| && init[j] == s;
        assert snaps[j] == s;
      }
    }
  }

  /** `r` lists the sorted tracked names `names` as far as snapd answers, turning the map `before` into `after`. */
  ghost predicate IsListing(
      before: map<string, SnapState>, after: map<string, SnapState>, snapd: Snapd, names: seq<string>,
      r: Reply<seq<Payload>>)
  {
    && IsSortedListOf(names, before.Keys)
    && r == Ok(Payloads(before, Client(snapd.change), Listed(snapd, names)))
    && after == AfterListing(before, Listed(snapd, names))
  }

  /** snapd answers under the names it is asked for. */
  ghost predicate AnswersByName(snapd: Snapd, names: seq<string>) {
    forall n :: n in names && Answers(snapd, n) ==> GetSnap(snapd, n).value.value.name == n
  }

  lemma ListedNamesAreDistinct(snapd: Snapd, names: seq<string>, all: set<string>)
    requires IsSortedListOf(names, all) && AnswersByName(snapd, names)
    ensures var snaps := Listed(snapd, names);
      && |snaps| <= |names| && (forall i :: 0 <= i < |snaps| ==> snaps[i].name == names[i])
      && (forall j, k :: 0 <= j < k < |snaps| ==> snaps[j].name != snaps[k].name)
  {
    var snaps := Listed(snapd, names);
    ListedIsLongestPrefix(snapd, names);
    forall i | 0 <= i < |snaps| ensures snaps[i].name == names[i] {
      assert names[i] in names;
    }
    forall j, k | 0 <= j < k < |snaps| ensures snaps[j].name != snaps[k].name {
      DistinctFromMultiset(names, all, j, k);
    }
  }

  lemma DistinctFromMultiset(names: seq<string>, all: set<string>, j: nat, k: nat)
    requires multiset(names) == multiset(all) && j < k < |names|
    ensures names[j] != names[k]
  {
    assert names == names[..k] + [names[k]] + names[k + 1..];
    assert multiset(names) == multiset(names[..k]) + multiset{names[k]} + multiset(names[k + 1..]);
    assert names[..k][j] == names[j] && multiset(names[..k])[names[j]] >= 1;
    assert multiset(all)[names[k]] <= 1;
  }

  /**
   The tracked listing: one payload per name of the longest prefix of the sorted tracked names that snapd
   answers for, in order, and each is what `State` would have answered before the listing.
   */
  lemma TrackedListingPayloads(states: map<string, SnapState>, snapd: Snapd, names: seq<string>)
    requires IsSortedListOf(names, states.Keys) && AnswersByName(snapd, names)
    ensures var client, snaps := Client(snapd.change), Listed(snapd, names);
      var ps := Payloads(states, client, snaps);
      && |ps| <= |names| && (|ps| < |names| ==> !Answers(snapd, names[|ps|]))
      && forall i :: 0 <= i < |ps| ==>
        var state := Reported(states, client, snaps[i]);
        && ps[i].id == names[i] && ps[i].status == state.status
        && ps[i].taskSummary == state.taskSummary && ps[i].localSize == state.localSize
  {
    ListedIsLongestPrefix(snapd, names);
    ListedNamesAreDistinct(snapd, names, states.Keys);
    var client, snaps := Client(snapd.change), Listed(snapd, names);
    forall i | 0 <= i < |snaps|
      ensures Payloads(states, client, snaps)[i] == PayloadOf(snaps[i], Reported(states, client, snaps[i]))
    {
      PayloadsOfDistinctNames(states, client, snaps, i);
    }
  }

  /** The tracked listing takes out of the tracker exactly the listed names whose operation had completed. */
  lemma TrackedListingDrops(states: map<string, SnapState>, snapd: Snapd, names: seq<string>, name: string)
    requires IsSortedListOf(names, states.Keys) && AnswersByName(snapd, names) && name in states
    ensures |Listed(snapd, names)| <= |names|
    ensures name !in AfterListing(states, Listed(snapd, names)) <==>
      exists i :: 0 <= i < |Listed(snapd, names)| && name == names[i]
                  && HasOperationCompleted(states[name].status, Listed(snapd, names)[i])
  {
    ListedNamesAreDistinct(snapd, names, states.Keys);
    var snaps := Listed(snapd, names);
    ListingDropsCompleted(states, snaps, name);
    if name !in AfterListing(states, snaps) {
      var s :| s in snaps && s.name == name && HasOperationCompleted(states[name].status, s);
      var i :| 0 <= i < |snaps| && snaps[i] == s;
      assert snaps[i].name == names[i] && HasOperationCompleted(states[name].status, snaps[i]);
      assert exists i :: 0 <= i < |snaps| && name == names[i] && HasOperationCompleted(states[name].status, snaps[i]);
    }
    forall i | 0 <= i < |snaps| && name == names[i] && HasOperationCompleted(states[name].status, snaps[i])
      ensures name !in AfterListing(states, snaps)
    {
      assert snaps[i] in snaps && snaps[i].name == name;
    }
  }

  // ---------------------------------------------------------------- the operations in place

  class Handler {
    const stateTracker: StateTracker
    /** What snapd has been asked to start or abort, oldest first. */
    var calls: seq<SnapdCall>

    ghost function View(): State
      reads this, stateTracker
    {
      State(stateTracker.View(), calls)
    }

    constructor (tracker: StateTracker)
      ensures stateTracker == tracker && calls == []
    {
      stateTracker, calls := tracker, [];
    }

    method RemovePackage(snapd: Snapd, name: string) returns (err: Option<string>)
      requires GetSnap(snapd, name) != Ok(None)
      modifies this`calls, stateTracker`states, stateTracker`timers
      ensures (View(), err.None?) == Begin(old(View()), snapd, name, Uninstalling)
    {
      var reply := GetSnap(snapd, name);
      if reply.Err? { return Some(reply.error); }
      var started := snapd.start(RemoveCall(name));
      calls := calls + [RemoveCall(name)];
      stateTracker.TrackUninstall(started.changeID, reply.value.value);
      return started.error;
    }

    method InstallPackage(snapd: Snapd, name: string) returns (err: Option<string>)
      requires GetSnap(snapd, name) != Ok(None)
      modifies this`calls, stateTracker`states, stateTracker`timers
      ensures (View(), err.None?) == Begin(old(View()), snapd, name, Installing)
    {
      var reply := GetSnap(snapd, name);
      if reply.Err? { return Some(reply.error); }
      var started := snapd.start(InstallCall(name));
      calls := calls + [InstallCall(name)];
      stateTracker.TrackInstall(started.changeID, reply.value.value);
      return started.error;
    }

    method AbortRunningOperation(snapd: Snapd, name: string) returns (err: Option<string>)
      modifies this`calls, stateTracker`states
      ensures (View(), err.None?) == Abort(old(View()), snapd, name)
    {
      var reply := GetSnap(snapd, name);
      if reply.Err? { return Some(reply.error); }
      if reply.value.None? { return Some("Invalid snap name"); }
      var tracked, changeID := stateTracker.IsTrackedForRunningOperation(reply.value.value);
      if !tracked { return Some("No operation to abort for snap " + name); }
      err := snapd.abort(changeID);
      calls := calls + [AbortCall(changeID)];
      if err.None? {
        stateTracker.CancelTrackingFor(name);
      }
    }

    method Enable(snapd: Snapd, name: string) returns (err: Option<string>)
      modifies this`calls, stateTracker`states, stateTracker`timers
      ensures (View(), err.None?) == Begin(old(View()), snapd, name, Enabling)
    {
      var reply := GetSnap(snapd, name);
      if reply.Err? { return Some(reply.error); }
      if reply.value.None? { return Some("Snap not found " + name); }
      if !reply.value.value.status.SnapdInstalled? { return Some("Snap not installed and disabled"); }
      var started := snapd.start(EnableCall(name));
      calls := calls + [EnableCall(name)];
      if started.error.None? {
        stateTracker.TrackEnable(started.changeID, reply.value.value);
      }
      return started.error;
    }

    method Disable(snapd: Snapd, name: string) returns (err: Option<string>)
      modifies this`calls, stateTracker`states, stateTracker`timers
      ensures (View(), err.None?) == Begin(old(View()), snapd, name, Disabling)
    {
      var reply := GetSnap(snapd, name);
      if reply.Err? { return Some(reply.error); }
      if reply.value.None? { return Some("Snap not found " + name); }
      if !reply.value.value.status.SnapdActive? { return Some("Snap not installed and enabled"); }
      var started := snapd.start(DisableCall(name));
      calls := calls + [DisableCall(name)];
      if started.error.None? {
        stateTracker.TrackDisable(started.changeID, reply.value.value);
      }
      return started.error;
    }

    /** The loop of `allPackages` that stops at the first name snapd has no answer for. */
    method FetchSnaps(snapd: Snapd, names: seq<string>) returns (snaps: seq<Snap>)
      requires forall n :: n in names ==> GetSnap(snapd, n) != Ok(None)
      ensures snaps == Listed(snapd, names)
    {
      snaps := [];
      assert names[0..] == names;
      for i := 0 to |names|
        invariant Listed(snapd, names) == snaps + Listed(snapd, names[i..])
      {
        assert names[i..][0] == names[i] && names[i..][1..] == names[i + 1..];
        var reply := GetSnap(snapd, names[i]);
        if reply.Err? { return; }
        snaps := snaps + [reply.value.value];
      }
    }

    /** The loop of `allPackages` that turns snapshots into payloads, consulting the tracker for each. */
    method SnapPayloads(snapd: Snapd, snaps: seq<Snap>) returns (payloads: seq<Payload>)
      modifies stateTracker`states
      ensures payloads == Payloads(old(stateTracker.states), Client(snapd.change), snaps)
      ensures stateTracker.states == AfterListing(old(stateTracker.states), snaps)
    {
      ghost var all := stateTracker.states;
      payloads := [];
      for k := 0 to |snaps|
        invariant payloads == Payloads(all, Client(snapd.change), snaps[..k])
        invariant stateTracker.states == AfterListing(all, snaps[..k])
      {
        var state := stateTracker.State(Client(snapd.change), snaps[k]);
        assert snaps[..k + 1][..k] == snaps[..k];
        payloads := payloads + [PayloadOf(snaps[k], state)];
      }
      assert snaps[..|snaps|] == snaps;
    }

    /** The branch of `allPackages` that lists the tracked snaps; its error is always nil. */
    method TrackedPackages(snapd: Snapd) returns (r: Reply<seq<Payload>>)
      requires forall n :: n in stateTracker.states ==> GetSnap(snapd, n) != Ok(None)
      modifies stateTracker`states
      ensures exists names :: IsListing(old(stateTracker.states), stateTracker.states, snapd, names, r)
    {
      ghost var all := stateTracker.states;
      var keys := stateTracker.AllTrackedSnaps();
      var names := SortStrings(keys);
      forall n | n in names ensures n in all {
        assert n in multiset(names) && n in multiset(all.Keys);
      }
      var snaps := FetchSnaps(snapd, names);
      var payloads := SnapPayloads(snapd, snaps);
      r := Ok(payloads);
      assert IsListing(all, stateTracker.states, snapd, names, r);
    }
  }
}
