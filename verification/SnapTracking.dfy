/**
 The snap state tracker: a map from snap name to the operation believed to be running on it,
 with the sleeping goroutines that delete entries after a fixed delay.

 The functions of this module give every operation of the tracker as a map from values to values;
 the class `StateTracker` performs them in place and is proved against them.
 */
module SnapTracking {
  import opened Wrappers

  /** The statuses the web interface understands. */
  datatype Status =
    | Priced | Installed | Active | Uninstalled
    | Installing | Uninstalling | Enabling | Disabling

  /** The statuses snapd reports, with every text the tracker never compares against merged into one. */
  datatype SnapdStatus = SnapdInstalled | SnapdActive | SnapdPriced | SnapdOther

  /** A snapshot of a snap, as snapd described it at some moment. */
  datatype Snap = Snap(name: string, status: SnapdStatus)

  datatype SnapState = SnapState(status: Status, changeID: string, localSize: nat, taskSummary: string)

  type int64 = x: int | -0x8000_0000_0000_0000 <= x < 0x8000_0000_0000_0000

  datatype Task = Task(done: int64, status: string, summary: string)

  /** What snapd answers when asked for a change; `NoChange` covers a nil change and an error. */
  datatype ChangeReply = NoChange | Change(tasks: seq<Task>)

  /** The client handed to `State`; it may be nil. */
  datatype Client = NoClient | Client(change: string -> ChangeReply)

  /** A goroutine sleeping until `deadline`, after which it deletes `name`. */
  datatype Timer = Timer(name: string, deadline: nat)

  datatype Tracker = Tracker(states: map<string, SnapState>, timers: multiset<Timer>, now: nat)

  const DOING := "Doing"

  /** Two minutes, in nanoseconds. */
  const TRACKER_DURATION: nat := 2 * 60 * 1_000_000_000

  const EMPTY_TRACKER := Tracker(map[], multiset{}, 0)

  // ---------------------------------------------------------------- status arithmetic

  predicate IsTransient(s: Status) {
    s.Installing? || s.Uninstalling? || s.Enabling? || s.Disabling?
  }

  predicate IsInstalled(snap: Snap) {
    snap.status.SnapdInstalled? || snap.status.SnapdActive?
  }

  function TranslateStatus(snap: Snap): Status {
    match snap.status
    case SnapdInstalled => Installed
    case SnapdActive => Active
    case SnapdPriced => Priced
    case SnapdOther => Uninstalled
  }

  predicate HasOperationCompleted(s: Status, snap: Snap) {
    if s.Installing? then IsInstalled(snap)
    else if s.Enabling? then snap.status.SnapdActive?
    else if s.Disabling? then snap.status.SnapdInstalled?
    else !IsInstalled(snap)
  }

  /** The test each `Track` method makes on its snapshot before it looks at the map. */
  predicate StartGuard(op: Status, snap: Snap) {
    match op
    case Installing => !IsInstalled(snap)
    case Uninstalling => IsInstalled(snap)
    case Enabling => IsInstalled(snap)
    case Disabling => IsInstalled(snap)
    case _ => false
  }

  // ---------------------------------------------------------------- the progress scan

  /** Go's conversion of an int to uint64: negative values wrap around. */
  function ToUint64(x: int64): nat {
    if x < 0 then x + 0x1_0000_0000_0000_0000 else x
  }

  predicate HasProgress(task: Task) {
    ToUint64(task.done) > 1
  }

  /** Index of the first task being done, or the number of tasks. */
  function FirstDoing(tasks: seq<Task>): (i: nat)
    ensures i <= |tasks|
    ensures i < |tasks| ==> tasks[i].status == DOING
    ensures forall j :: 0 <= j < i ==> tasks[j].status != DOING
  {
    if tasks == [] || tasks[0].status == DOING then 0 else 1 + FirstDoing(tasks[1..])
  }

  /** Tasks up to and including the first one being done; all of them if none is. */
  function Examined(tasks: seq<Task>): seq<Task> {
    var i := FirstDoing(tasks);
    if i < |tasks| then tasks[..i + 1] else tasks
  }

  function LastProgress(tasks: seq<Task>, default: nat): nat {
    if tasks == [] then default
    else if HasProgress(tasks[|tasks| - 1]) then ToUint64(tasks[|tasks| - 1].done)
    else LastProgress(tasks[..|tasks| - 1], default)
  }

  function ScanResult(tasks: seq<Task>, stored: SnapState): SnapState {
    var i := FirstDoing(tasks);
    stored.(localSize := LastProgress(Examined(tasks), stored.localSize),
            taskSummary := if i < |tasks| then tasks[i].summary else stored.taskSummary)
  }

  /** `p` is the last of the first `n` tasks with progress; -1 if there is none. */
  ghost predicate IsLastProgress(tasks: seq<Task>, n: nat, p: int) {
    && -1 <= p < n <= |tasks| && (p >= 0 ==> HasProgress(tasks[p]))
    && forall j :: p < j < n ==> !HasProgress(tasks[j])
  }

  lemma {:induction false} LastProgressIsLast(tasks: seq<Task>, default: nat, p: int)
    requires IsLastProgress(tasks, |tasks|, p)
    ensures LastProgress(tasks, default) == if p >= 0 then ToUint64(tasks[p].done) else default
  {
    if tasks != [] && !HasProgress(tasks[|tasks| - 1]) {
      LastProgressIsLast(tasks[..|tasks| - 1], default, p);
    }
  }

  /**
   The scan without reference to any loop. Let `f` be the first task being done and `p` the last task with
   progress above 1 up to there (up to the end if nothing is being done): the size is that of `p`, the summary
   that of `f`, and each is left as stored if there is no such task.
   */
  lemma ScanIsDeclarative(tasks: seq<Task>, stored: SnapState, f: nat, p: int)
    requires f <= |tasks| && (f < |tasks| ==> tasks[f].status == DOING)
    requires forall j :: 0 <= j < f ==> tasks[j].status != DOING
    requires IsLastProgress(tasks, if f < |tasks| then f + 1 else f, p)
    ensures ScanResult(tasks, stored) ==
      stored.(localSize := if p >= 0 then ToUint64(tasks[p].done) else stored.localSize,
              taskSummary := if f < |tasks| then tasks[f].summary else stored.taskSummary)
  {
    assert FirstDoing(tasks) == f;
    LastProgressIsLast(Examined(tasks), stored.localSize, p);
  }

  // ---------------------------------------------------------------- the operations on values

  function Progress(client: Client, stored: SnapState): SnapState {
    match client
    case NoClient => stored
    case Client(change) =>
      match change(stored.changeID)
      case NoChange => stored
      case Change(tasks) => ScanResult(tasks, stored)
  }

  function Untracked(snap: Snap): SnapState {
    SnapState(TranslateStatus(snap), "", 0, "")
  }

  predicate Runs(states: map<string, SnapState>, snap: Snap) {
    snap.name in states && !HasOperationCompleted(states[snap.name].status, snap)
  }

  /** The answer of `State`. */
  function Reported(states: map<string, SnapState>, client: Client, snap: Snap): SnapState {
    if Runs(states, snap) then Progress(client, states[snap.name]) else Untracked(snap)
  }

  /** The statuses, kind by kind: nothing the tracker does not know about is ever transient. */
  lemma TranslatedStatuses(snap: Snap)
    ensures var s := TranslateStatus(snap);
      && (s == Active <==> snap.status == SnapdActive) && (s == Installed <==> snap.status == SnapdInstalled)
      && (s == Priced <==> snap.status == SnapdPriced) && (s == Uninstalled <==> snap.status == SnapdOther)
      && (IsInstalled(snap) <==> s in {Installed, Active})
  {
  }

  /** Whether a task counts as progress, and how much, written out: its `int` is read as a `uint64`. */
  ghost predicate MovesOn(done: int64) {
    done < 0 || done > 1
  }

  ghost function AsUint64(done: int64): nat {
    if done < 0 then 0x1_0000_0000_0000_0000 + done else done
  }

  /**
   What `State` reports of a running operation whose change has tasks. `f` is the first task being done, or the
   number of tasks if there is none, and `p` the last one up to there that moves on, or -1.
   */
  lemma ReportedProgress(states: map<string, SnapState>, change: string -> ChangeReply, snap: Snap, tasks: seq<Task>,
                         f: nat, p: int)
    requires snap.name in states && !HasOperationCompleted(states[snap.name].status, snap)
    requires change(states[snap.name].changeID) == Change(tasks)
    requires f <= |tasks| && (f < |tasks| ==> tasks[f].status == "Doing")
    requires forall j :: 0 <= j < f ==> tasks[j].status != "Doing"
    requires -1 <= p < (if f < |tasks| then f + 1 else f) && (p >= 0 ==> MovesOn(tasks[p].done))
    requires forall j :: p < j < (if f < |tasks| then f + 1 else f) ==> !MovesOn(tasks[j].done)
    ensures var stored, reply := states[snap.name], Reported(states, Client(change), snap);
      && reply.status == stored.status && reply.changeID == stored.changeID
      && reply.localSize == (if p >= 0 then AsUint64(tasks[p].done) else stored.localSize)
      && reply.taskSummary == (if f < |tasks| then tasks[f].summary else stored.taskSummary)
  {
    ScanIsDeclarative(tasks, states[snap.name], f, p);
  }

  /** Without a running operation the answer is the snapshot's own status, with no change and no progress. */
  lemma ReportedSettled(states: map<string, SnapState>, client: Client, snap: Snap)
    requires snap.name !in states || HasOperationCompleted(states[snap.name].status, snap)
    ensures var reply := Reported(states, client, snap);
      && reply.status == TranslateStatus(snap) && !IsTransient(reply.status)
      && reply.changeID == "" && reply.localSize == 0 && reply.taskSummary == ""
  {
  }

  /** Without a client, or without tasks from it, a running operation is reported as it is stored. */
  lemma ReportedWithoutProgress(states: map<string, SnapState>, client: Client, snap: Snap)
    requires snap.name in states && !HasOperationCompleted(states[snap.name].status, snap)
    requires client.NoClient? || client.change(states[snap.name].changeID).NoChange?
    ensures Reported(states, client, snap) == states[snap.name]
  {
  }

  /** The map `State` leaves behind. */
  function AfterReport(states: map<string, SnapState>, snap: Snap): map<string, SnapState> {
    if Runs(states, snap) then states else states - {snap.name}
  }

  /** The unlocked part of a `Track` method: does it go on to `trackOperation`? */
  predicate PassesCheck(states: map<string, SnapState>, op: Status, snap: Snap) {
    StartGuard(op, snap) && !Runs(states, snap)
  }

  /** The locked part of a `Track` method: insert, and start a timer that knows only the name. */
  function Insert(t: Tracker, op: Status, changeID: string, name: string): Tracker {
    t.(states := t.states[name := SnapState(op, changeID, 0, "")],
       timers := t.timers + multiset{Timer(name, t.now + TRACKER_DURATION)})
  }

  /** A `Track` method whose two parts nothing separates. */
  function Track(t: Tracker, op: Status, changeID: string, snap: Snap): Tracker {
    if PassesCheck(t.states, op, snap) then Insert(t, op, changeID, snap.name) else t
  }

  function Query(t: Tracker, snap: Snap): Tracker {
    t.(states := AfterReport(t.states, snap))
  }

  function Cancel(t: Tracker, name: string): Tracker {
    t.(states := t.states - {name})
  }

  function Fire(t: Tracker, timer: Timer): Tracker {
    t.(states := t.states - {timer.name}, timers := t.timers - multiset{timer})
  }

  // ---------------------------------------------------------------- the tracker in place

  class StateTracker {
    var states: map<string, SnapState>
    /** The goroutines asleep in `time.After`, and the clock they read. */
    var timers: multiset<Timer>
    var now: nat

    ghost function View(): Tracker
      reads this
    {
      Tracker(states, timers, now)
    }

    constructor ()
      ensures View() == EMPTY_TRACKER
    {
      states, timers, now := map[], multiset{}, 0;
    }

    method State(client: Client, snap: Snap) returns (r: SnapState)
      modifies this`states
      ensures r == Reported(old(states), client, snap)
      ensures View() == Query(old(View()), snap)
    {
      if snap.name !in states {
        assert states - {snap.name} == states;
        return SnapState(TranslateStatus(snap), "", 0, "");
      }
      var cstate := states[snap.name];
      var changing, changeID := IsTrackedForRunningOperation(snap);
      if changing && client.Client? {
        var change := client.change(changeID);
        if change.Change? {
          cstate := ScanTasks(change.tasks, cstate);
        }
      }
      if HasOperationCompleted(cstate.status, snap) {
        states := states - {snap.name};
        return SnapState(TranslateStatus(snap), "", 0, "");
      }
      return cstate;
    }

    static method ScanTasks(tasks: seq<Task>, stored: SnapState) returns (r: SnapState)
      ensures r == ScanResult(tasks, stored)
    {
      r := stored;
      var i := 0;
      while i < |tasks|
        invariant 0 <= i <= FirstDoing(tasks)
        invariant r == stored.(localSize := LastProgress(tasks[..i], stored.localSize))
      {
        var task := tasks[i];
        assert tasks[..i + 1][..i] == tasks[..i];
        if ToUint64(task.done) > 1 {
          r := r.(localSize := ToUint64(task.done));
        }
        if task.status == DOING {
          r := r.(taskSummary := task.summary);
          return;
        }
        i := i + 1;
      }
      assert tasks[..i] == tasks;
    }

    method IsTrackedForRunningOperation(snap: Snap) returns (running: bool, changeID: string)
      ensures running == Runs(states, snap)
      ensures changeID == if snap.name in states then states[snap.name].changeID else ""
    {
      if snap.name !in states {
        return false, "";
      }
      var state := states[snap.name];
      return !HasOperationCompleted(state.status, snap), state.changeID;
    }

    /** Go visits the keys in any order; `keys` lists each of them once. */
    method AllTrackedSnaps() returns (keys: seq<string>)
      ensures multiset(keys) == multiset(states.Keys)
    {
      keys := [];
      var left := states.Keys;
      while left != {}
        invariant left <= states.Keys
        invariant multiset(keys) + multiset(left) == multiset(states.Keys)
      {
        var k :| k in left;
        keys, left := keys + [k], left - {k};
      }
    }

    method TrackInstall(changeID: string, snap: Snap)
      modifies this`states, this`timers
      ensures View() == Track(old(View()), Installing, changeID, snap)
    {
      if IsInstalled(snap) { return; }
      var tracked, _ := IsTrackedForRunningOperation(snap);
      if tracked { return; }
      TrackOperation(changeID, snap.name, Installing);
    }

    method TrackUninstall(changeID: string, snap: Snap)
      modifies this`states, this`timers
      ensures View() == Track(old(View()), Uninstalling, changeID, snap)
    {
      if !IsInstalled(snap) { return; }
      var tracked, _ := IsTrackedForRunningOperation(snap);
      if tracked { return; }
      TrackOperation(changeID, snap.name, Uninstalling);
    }

    method TrackEnable(changeID: string, snap: Snap)
      modifies this`states, this`timers
      ensures View() == Track(old(View()), Enabling, changeID, snap)
    {
      if !IsInstalled(snap) { return; }
      var tracked, _ := IsTrackedForRunningOperation(snap);
      if tracked { return; }
      TrackOperation(changeID, snap.name, Enabling);
    }

    method TrackDisable(changeID: string, snap: Snap)
      modifies this`states, this`timers
      ensures View() == Track(old(View()), Disabling, changeID, snap)
    {
      if !IsInstalled(snap) { return; }
      var tracked, _ := IsTrackedForRunningOperation(snap);
      if tracked { return; }
      TrackOperation(changeID, snap.name, Disabling);
    }

    method CancelTrackingFor(name: string)
      modifies this`states
      ensures View() == Cancel(old(View()), name)
    {
      if name !in states {
        assert states - {name} == states;
        return;
      }
      states := states - {name};
    }

    method TrackOperation(changeID: string, name: string, operation: Status)
      modifies this`states, this`timers
      ensures View() == Insert(old(View()), operation, changeID, name)
    {
      states := states[name := SnapState(operation, changeID, 0, "")];
      timers := timers + multiset{Timer(name, now + TRACKER_DURATION)};
    }

    /** What the goroutine started by `TrackOperation` does when it wakes up. */
    method TimerWakes(timer: Timer)
      requires timer in timers && timer.deadline <= now
      modifies this`states, this`timers
      ensures View() == Fire(old(View()), timer)
    {
      timers := timers - multiset{timer};
      states := states - {timer.name};
    }
  }
}
