# A verified model of snapweb's stateful parts

snapweb is a web server for managing the snaps of a device, with a browser front end. This project models, in
Dafny 4.11, the parts of it that keep state or compute something subtle, and proves what they guarantee over every
input and every run:

- **the snap state tracker** (`SnapTracking`, `TrackerRuns`, `TrackerGuarantees`): a map of running operations shared
  by request handlers and expiry goroutines, as an object and as a state machine over its atomic steps;
- **the package operations** that drive it (`SnapOperations`, `OperationRuns`): install, remove, enable, disable,
  abort, and the listing of tracked snaps;
- **the browser's poll loop** (`PollLoop`), run beside the tracker as one two-party protocol;
- **the IP filter** (`NetAddress`, `AccessFilter`): a one-entry cache in front of a growing list of networks;
- **the email pattern** (`UserEmail`), against a one-pass scanner and against a description in words;
- **the NTP server list and the time patch** (`TimeSync`, `Texts`);
- **the access token** (`AccessToken`), **the time zone picker** (`TimeZonePicker`) and **the home list** (`HomeList`).

Objects the program updates in place are classes whose methods are proved against functions on values; lemmas then
state what those functions promise. `dafny verify dfyconfig.toml` checks everything.

## How the tracker's runs are modelled

Every section of `statetracker.go` that holds the lock is one event of `TrackerRuns`. The lookup a `Track` method makes
before it takes the lock (`Check`) is an event of its own, and anything may happen before its `Commit`. Every insertion
starts a goroutine that will delete the name, and knows nothing but the name; the sleeping goroutines are a multiset of
`Timer`s. Time passes in `Tick` events that never go beyond a pending deadline, so a goroutine wakes exactly when it is
due, before or after other events of that instant. Snapshots of snaps are arbitrary: nothing is assumed about snapd.
A run starts from the empty tracker. `AtomicTracks` singles out the runs in which a passing check is committed at once.

## Where the code differs from what is said about it

- The comment at `statetracker/statetracker.go:23-27` says a snap stays "installing" until snapd reports it installed.
  The code also drops it when the operation is cancelled and when any goroutine for that name wakes, including one
  left over from an earlier operation; `ReportedOperationPersists` shows that these are exactly the ways out.
- An entry does not always last two minutes. `TermOfAnEntry` says exactly when it does, and `ExpiryAtTheBoundary` is a
  run in which an entry is deleted at the instant it was made, by the goroutine of a track made one term earlier.
- Two interleaved installs can replace an operation that is still running: `RunningIsReplacedIff` says exactly when,
  and `RaceReplacesRunningOperation` is such a run.
- An abort may cancel another operation than the one it asked snapd to abort: `AbortCancelsAnotherIff` says exactly
  when, and `AbortCancelsAnother` is such a run.
- The outcome of a time patch can depend on the order in which Go visits it: `EveryOrderAgreesIff` says exactly when it
  does not, and `OrderMayMatter` is a patch for which it does.
- Install and remove are tracked even if snapd refuses them (`RefusedStart`).
- An operation is tracked under the name inside the snapshot and cancelled under the name of the request; `StartThenAbort`
  shows that the map is restored exactly when the two agree.
- A new filter, meant to block everything, accepts an address that is empty but not nil (`EmptyAddressIsAllowed`).
  `ReachableCacheIsTransparent` shows that this is the only difference from the plain scan.
- An interface's network is printed and parsed again, which keeps its addresses exactly for a contiguous mask
  (`TextKeepsAddresses`); any other mask is printed in hexadecimal and read back in decimal, so that 0.0.0.8 becomes a
  prefix length of eight (`HexMaskIsMisread`). Linux makes the masks of its interfaces from prefix lengths, so they are
  all contiguous.
- A status given to a model that had none is not taken back when the request fails (`FailedRequestIsUndone`), and a snap
  removed while it is being enabled is shown as installed (`FlagsMayDisagree`).
- Within an hour west of Greenwich the description of an offset has a plus sign (`DescriptionDecodes`, `IsNegative`).

## Model

| member | source | states |
|---|---|---|
| SnapTracking.StateTracker.constructor | statetracker/statetracker.go:79-83 | a new tracker tracks nothing |
| SnapTracking.StateTracker.State | statetracker/statetracker.go:86-122 | the reply, and the map it leaves: the entry is deleted exactly when the snapshot shows its operation completed |
| SnapTracking.StateTracker.ScanTasks | statetracker/statetracker.go:101-110 | the loop over a change's tasks computes `ScanResult`, whose meaning is `ScanIsDeclarative` |
| SnapTracking.ScanIsDeclarative | statetracker/statetracker.go:101-110 | the size reported is that of the last task with progress above 1 (as uint64) up to the first one being done, or up to the end; the summary is that of the first one being done |
| SnapTracking.ReportedProgress | statetracker/statetracker.go:86-122 | what `State` answers for a running operation whose change has tasks: the stored operation, with the size of the last task moving on up to the first one being "Doing" (its int as uint64), and the summary of that one, each as stored if there is no such task |
| SnapTracking.ReportedWithoutProgress | statetracker/statetracker.go:97-112 | without a client or a change the entry is answered as stored |
| SnapTracking.ReportedSettled | statetracker/statetracker.go:86-119 | without a running operation the answer is the snapshot's status, with no change and no progress |
| SnapTracking.TranslatedStatuses | statetracker/statetracker.go:226-242 | each snapd status and the one it is shown as |
| SnapTracking.StateTracker.IsTrackedForRunningOperation | statetracker/statetracker.go:126-133 | tracked and not completed for this snapshot, with the stored change ID whenever the name is tracked |
| SnapTracking.StateTracker.AllTrackedSnaps | statetracker/statetracker.go:136-144 | each tracked name exactly once, in any order |
| SnapTracking.StateTracker.TrackInstall | statetracker/statetracker.go:147-156 | inserts and starts a goroutine iff the snapshot is not installed and nothing runs; otherwise changes nothing |
| SnapTracking.StateTracker.TrackUninstall | statetracker/statetracker.go:171-181 | likewise for an installed snapshot |
| SnapTracking.StateTracker.TrackEnable | statetracker/statetracker.go:184-194 | likewise for an installed snapshot |
| SnapTracking.StateTracker.TrackDisable | statetracker/statetracker.go:197-207 | likewise for an installed snapshot |
| SnapTracking.StateTracker.CancelTrackingFor | statetracker/statetracker.go:159-168 | removes that name and no other, and leaves its goroutines asleep |
| SnapTracking.StateTracker.TrackOperation | statetracker/statetracker.go:209-224 | the new entry replaces any old one, and one more goroutine sleeps for a full term |
| SnapTracking.StateTracker.TimerWakes | statetracker/statetracker.go:218-223 | a goroutine deletes its name, whatever entry is there now |
| TrackerRuns.TrackIsCheckThenCommit | statetracker/statetracker.go:147-224 | an uninterrupted `Track` method is its unlocked check followed by its locked commit |
| TrackerRuns.WakesOnTime | statetracker/statetracker.go:218-223 | in every run a goroutine wakes exactly at its deadline |
| TrackerRuns.SleepersHaveOrigin | statetracker/statetracker.go:218-223 | every sleeping goroutine was started by a commit of its name, one term before its deadline |
| TrackerGuarantees.GoroutinesAreConserved | statetracker/statetracker.go:218-223 | every goroutine a commit has started is asleep or has woken, once |
| TrackerRuns.SleepsUntilDeadline | statetracker/statetracker.go:218-223 | nothing wakes or removes a goroutine before its deadline, not even cancelling its operation |
| TrackerRuns.StoredEntriesCarryNoProgress | statetracker/statetracker.go:209-216 | in every reachable state stored entries have size 0, no summary and one of the four transient statuses |
| TrackerRuns.Overwrite | statetracker/statetracker.go:147-224 | if a commit replaces an entry, its own check came before that entry was inserted or saw its operation completed |
| TrackerRuns.AtomicNeverReplacesRunning | statetracker/statetracker.go:147-224 | without interleaving, a commit only replaces an operation that its own snapshot shows completed |
| TrackerGuarantees.RunningIsReplacedIff | statetracker/statetracker.go:147-224 | a commit replaces an operation still running iff another call committed the name after this call's check, nothing touched the name since, and this call's snapshot does not show that operation completed |
| TrackerGuarantees.RaceReplacesRunningOperation | statetracker/statetracker.go:147-156 | with interleaving a running operation can be replaced: a concrete run |
| TrackerGuarantees.FirstWakeIsNextDeadline | statetracker/statetracker.go:218-223 | the first goroutine of a name to wake has the smallest pending deadline |
| TrackerGuarantees.ExactExpiry | statetracker/statetracker.go:209-224 | an entry that nothing else removes or replaces is present and unchanged before the smallest pending deadline of its name, gone after it, and removed by a goroutine at that very time |
| TrackerGuarantees.TermOfAnEntry | statetracker/statetracker.go:218-223 | that deadline is at most one term away, and one full term exactly when no goroutine of the name is due now and no track of it was made strictly inside the term before |
| TrackerGuarantees.ExpiryAtTheBoundary | statetracker/statetracker.go:218-223 | a run in which an entry is deleted the instant it is made, although no track was made in the half-open term before |
| TrackerGuarantees.TrackedIsRecent | statetracker/statetracker.go:209-224 | a tracked name holds the entry of its latest commit, whose own goroutine is still asleep |
| TrackerGuarantees.BoundedStaleness | statetracker/statetracker.go:86-122 | in every reachable state `State` answers the snapshot's own status, or the operation of the latest commit, at most one term old and not completed for the snapshot; the second case iff the name stays tracked iff the reply is transient |
| TrackerGuarantees.ReachableProgress | statetracker/statetracker.go:86-122 | in every reachable state a tracked name is answered with the operation of its latest commit and that size and summary, 0 and empty if there is no such task |
| TrackerGuarantees.TransientReportHasCommit | statetracker/statetracker.go:86-122 | every operation reported as under way is that of the latest commit of its name |
| TrackerGuarantees.ReportedOperationPersists | statetracker/statetracker.go:86-207 | with uninterrupted tracks, a reported operation is reported again, with the same change, iff in between the name was not cancelled, no goroutine for it woke, no snapshot showing completion reached `State` or a `Track` method whose own test it passes, and the later snapshot does not show completion |
| TrackerGuarantees.LeftoverWakeIsHarmless | statetracker/statetracker.go:218-223 | a goroutine left over changes nothing unless the name was tracked again |
| SnapOperations.Handler.RemovePackage | snappy/app/converge.go:143-156 | tracks a removal under the snapshot's name, whether or not snapd refused it |
| SnapOperations.Handler.InstallPackage | snappy/app/converge.go:158-171 | tracks an installation likewise |
| SnapOperations.Handler.AbortRunningOperation | snappy/app/converge.go:173-193 | aborts the stored change, and cancels tracking of the requested name only if snapd agrees |
| SnapOperations.Handler.Enable | snappy/app/converge.go:195-216 | asks snapd only for a disabled snap, and tracks only if snapd accepts |
| SnapOperations.Handler.Disable | snappy/app/converge.go:218-239 | asks snapd only for an active snap, and tracks only if snapd accepts |
| SnapOperations.InstalledSnapWins | snappy/app/converge.go:74-91 | the snapshot of an installed snap is taken if there is one, else that of the store, and the error is the store's |
| SnapOperations.GuardIsOpenGoal | statetracker/statetracker.go:147-207 | an operation is tracked for exactly the snapshots that do not show its goal |
| SnapOperations.GuardIs | statetracker/statetracker.go:147-207 | the guard of each `Track` method, by the status shown |
| SnapOperations.StartsAsNamed | snappy/app/converge.go:143-239 | a start asks snapd for exactly the operation it is named after, iff the snapshot allows it, returns snapd's error, and tracks the change of that call iff nothing runs, the goal is open, and snapd agreed or the request was to install or remove |
| SnapOperations.StartThenReport | snappy/app/converge.go:143-239 | an accepted start is what `State` reports next, with snapd's change ID, for exactly the snapshots that do not show the goal of the operation |
| SnapOperations.StartThenAbort | snappy/app/converge.go:143-239 | abort succeeds iff the goal is not reached; it then names the change the start returned, restores the map iff the request and the snapshot agree on the name, and leaves a goroutine with nothing to delete |
| OperationRuns.BeginIsCheckThenCommit | snappy/app/converge.go:143-239 | within a run, a start that reaches the tracker is a check, and a commit if the check passes |
| OperationRuns.AbortIsLookUpThenCancel | snappy/app/converge.go:173-193 | an uninterrupted abort is its unlocked look-up, the request to snapd, and, if snapd agrees, the cancellation of the requested name |
| OperationRuns.StartThenAbortInRun | snappy/app/converge.go:173-193 | while time and other names move on, the look-up of an abort finds an operation iff no goroutine of the name has woken and the snapshot does not show the goal, and it is the change of the start; before the next deadline of the name only the snapshot matters, after it nothing is found |
| OperationRuns.AbortCancelsAnotherIff | snappy/app/converge.go:181-189 | the cancellation removes another entry than the one looked up iff the name was committed again after the look-up and nothing touched it since |
| OperationRuns.AbortCancelsAnother | snappy/app/converge.go:181-189 | a run in which snapd aborts one change and tracking of another is cancelled |
| OperationRuns.AbortRestores | snappy/app/converge.go:173-193 | after it the name stays untracked until tracked again, waking goroutines change nothing, and the map is restored if no other entry was touched |
| SnapOperations.RefusedStart | snappy/app/converge.go:143-239 | a refused start changes the tracker iff it is an install or remove that passes the tracker's own checks |
| SnapOperations.SortStrings | snappy/app/converge.go:110 | a sorted permutation of the names |
| SnapOperations.StringLeqIsLexicographic | snappy/app/converge.go:110 | the order is the lexicographic one |
| SnapOperations.SortedListIsUnique | snappy/app/converge.go:109-110 | the sorted names do not depend on the order in which the map was visited |
| SnapOperations.Handler.FetchSnaps | snappy/app/converge.go:112-119 | the loop that stops at the first failure computes `Listed` |
| SnapOperations.ListedIsLongestPrefix | snappy/app/converge.go:112-119 | the snapshots of the longest prefix of the names that snapd answers for |
| SnapOperations.Handler.SnapPayloads | snappy/app/converge.go:133-138 | one payload per snapshot, each consulting and pruning the tracker in turn |
| SnapOperations.Handler.TrackedPackages | snappy/app/converge.go:108-140 | the whole tracked branch; its error is always nil |
| SnapOperations.ListingDropsCompleted | snappy/app/converge.go:133-138 | a listing removes exactly the names for which it met a snapshot showing completion |
| SnapOperations.TrackedListingPayloads | snappy/app/converge.go:102-141 | when snapd answers by name, the payloads are those of the longest answered prefix of the sorted tracked names, each with the id, and the status, summary and size that `State` would have answered beforehand |
| SnapOperations.TrackedListingDrops | snappy/app/converge.go:102-141 | and the tracker has lost exactly the listed names whose operation had completed |
| PollLoop.SnapModel.Parse | www/src/js/models/snap.js:243-281 | the status and the two flags a response sets; a response without a state clears the flags and keeps the status |
| PollLoop.ResponseWithState | www/src/js/models/snap.js:243-281 | a response with a state sets the status, and the flags of that status |
| PollLoop.ResponseWithoutState | www/src/js/models/snap.js:243-281 | one without keeps the status and clears both flags |
| PollLoop.SnapModel.OnAddOrSync | www/src/js/models/snap.js:34-61 | one delayed fetch is scheduled iff the status is transient |
| PollLoop.SnapModel.OnSuccess | www/src/js/models/snap.js:34-61 | parse, set, then at most one delayed fetch |
| PollLoop.SnapModel.OnError | www/src/js/models/snap.js:63-88 | a 404 while removing is ignored, any other error sets the previous attributes again, which never takes a status away; nothing is scheduled |
| PollLoop.FailedRequestIsUndone | www/src/js/models/snap.js:63-88 | exactly when a request that fails at once leaves the attributes as they were: not for a removal answered by a 404, nor for a first status given to a model without one |
| PollLoop.FailureAfterAddIsUndone | www/src/js/models/snap.js:63-88 | a failure right after a model was added leaves it as it was added |
| PollLoop.FlagsAgree | www/src/js/models/snap.js:261-281 | in every reachable state of the tracker the installed flag of a poll differs from the snapshot iff the name is tracked as being enabled or disabled and the snapshot is not installed; the enabled flag shows an active snap with nothing under way |
| PollLoop.FlagsMayDisagree | www/src/js/models/snap.js:261-281 | a run after which they differ |
| PollLoop.RequestOnPage | www/src/js/models/snap.js:34-88 | what a user request shows at once, what a success leaves and when it goes on polling, and what a failure takes back |
| PollLoop.ChainsAreConserved | www/src/js/models/snap.js:34-88 | chains alive and chains over are together as many as the add events and user requests, and none revives |
| PollLoop.PerformMove | www/src/js/models/snap.js:34-88 | the object's handlers do what a move of a page says, to its attributes and to its delays |
| PollLoop.Play | www/src/js/models/snap.js:34-88 | along a whole session the delays the object has set are exactly those its waiting chains are due to end |
| PollLoop.DelaysNeverOutnumberStarts | www/src/js/models/snap.js:34-61 | so there are as many as waiting chains, and never more than add events and user requests |
| PollLoop.ChainsAreOk | www/src/js/models/snap.js:34-61 | in every session polls of a chain are at least one wait apart, and a chain goes on only while every answer was transient |
| PollLoop.OverIsFinal | www/src/js/models/snap.js:34-88 | a chain that ended, by an error or a settled status, never moves again |
| PollLoop.TransientAnswerIsRecent | www/src/js/models/snap.js:43-58 | after the latest track of the name, a transient answer comes within one term |
| PollLoop.PollingIsBounded | www/src/js/models/snap.js:43-58 | after a track that is not repeated a chain makes at most 7502 further fetches, answered or not, the term divided by the wait, plus 2 |
| NetAddress.FormsOfIPv4 | snappy/app/netfilter.go:108 | an IPv4 address has the 32-bit and the mapped form, and no other address has an IPv4 form |
| NetAddress.EqualIsSameAddress | snappy/app/netfilter.go:45 | addresses are equal iff they are identical or the two forms of one IPv4 address |
| NetAddress.EqualAddressesAgree | snappy/app/netfilter.go:45 | equal addresses, in either form, lie in the same networks |
| NetAddress.ParsedContains | snappy/app/netfilter.go:64 | a parsed CIDR contains exactly the addresses of its family that share its prefix, IPv4-mapped addresses counting as IPv4 |
| NetAddress.TextReadsPrefix | snappy/app/netfilter.go:109 | a printed network parses iff the printed length reads as a decimal within the address, and then contains the addresses sharing that prefix; a mask that is not contiguous is printed in hexadecimal |
| NetAddress.TextKeepsAddresses | snappy/app/netfilter.go:109 | printing an interface's network and parsing it keeps its addresses iff its mask is contiguous |
| NetAddress.HexMaskIsMisread | snappy/app/netfilter.go:109 | the mask 0.0.0.8, which Linux interfaces never carry, is read back as a prefix length of eight |
| NetAddress.LoopbackNetworks | snappy/app/netfilter.go:108 | loopback addresses are those of 127.0.0.0/8 and ::1 |
| AccessFilter.NetFilter.constructor | snappy/app/netfilter.go:34-36 | a new filter has no networks and a nil cache |
| AccessFilter.NetFilter.IsAllowed | snappy/app/netfilter.go:39-59 | nil is refused, the cached address accepted, else the scan decides and fills the cache |
| AccessFilter.NetFilter.AllowNetwork | snappy/app/netfilter.go:62-72 | a parsable network is appended, any other text is an error |
| AccessFilter.NetFilter.AddLocalNetworks | snappy/app/netfilter.go:78-88 | appends the eligible networks of all interfaces, or nothing if they cannot be listed |
| AccessFilter.NetFilter.AddLocalNetworkForInterface | snappy/app/netfilter.go:92-115 | appends the eligible networks of one interface, or nothing if it cannot be read |
| AccessFilter.NetFilter.Serve | snappy/app/netfilter.go:118-139 | a miss refreshes the networks and asks once more |
| AccessFilter.NewFilterHandlerFromConfig | cmd/snapweb/handlers.go:355-378 | the initial filter, or none at all if filtering is disabled |
| AccessFilter.CacheStaysSound | snappy/app/netfilter.go:39-59 | in every reachable state the cache is nil or lies in an allowed network |
| AccessFilter.CacheIsTransparent | snappy/app/netfilter.go:39-59 | with a sound cache the cached answer equals the plain scan, except for an empty address, a nil cache and networks without the empty address |
| AccessFilter.ReachableCacheIsTransparent | snappy/app/netfilter.go:39-59 | in every reachable state that exception is an empty address and a nil cache, and nothing else |
| AccessFilter.EmptyAddressIsAllowed | snappy/app/netfilter.go:45 | that exception occurs |
| AccessFilter.FormsAgree | snappy/app/netfilter.go:39-59 | the 4-byte and the mapped form of an address get the same answer |
| AccessFilter.LocalAccept | snappy/app/netfilter.go:78-115 | the local networks accept exactly the addresses sharing with an eligible interface address the prefix its text is read back as |
| AccessFilter.EligibleIff | snappy/app/netfilter.go:106-110 | the eligible interface addresses are the IPv4 ones, in either form, and ::1 |
| AccessFilter.OtherAddrIsIgnored | snappy/app/netfilter.go:106-110 | every other address contributes nothing |
| AccessFilter.NeighbourIsServed | snappy/app/netfilter.go:118-139 | a request from an address, in either form, sharing the prefix of an IPv4 address of a listed interface is served, whatever the filter was |
| AccessFilter.ServedIsCached | snappy/app/netfilter.go:39-59 | a served address is in the cache afterwards, and the same request again changes nothing |
| AccessFilter.ContiguousAddr | snappy/app/netfilter.go:106-110 | for a contiguous mask that is the interface's own network |
| AccessFilter.ConfigAccepts | cmd/snapweb/handlers.go:360-376 | what the initial filter accepts, in terms of the configuration and the interfaces |
| AccessFilter.FilterHistory | snappy/app/netfilter.go:118-139 | after any run the accepted set is the configured one plus every eligible local network present at some miss |
| AccessFilter.ServedIff | snappy/app/netfilter.go:118-139 | a request is served iff its address was accepted before it or is local when it arrives |
| AccessFilter.AcceptanceIsMonotone | snappy/app/netfilter.go:118-139 | what is accepted once stays accepted |
| AccessFilter.RefreshingAgainAddsNothing | snappy/app/netfilter.go:78-88 | with unchanged interfaces a refresh lengthens the list and accepts nothing new |
| UserEmail.ScanEmail | www/src/js/models/create-user.js:16 | the one-pass scanner, as a loop |
| UserEmail.ClassesAre | www/src/js/models/create-user.js:16 | the classes of the pattern, character by character |
| UserEmail.PatternIsScanner | www/src/js/models/create-user.js:15-23 | for every string the pattern matches iff the scanner accepts |
| UserEmail.ValidEmails | www/src/js/models/create-user.js:15-23 | what the pattern accepts, in words and written out characters: one at sign, the local part, two to four labels; and the two messages |
| TimeSync.TimesyncdConf.WriteNTPServer | cmd/snapweb/datetime.go:56-98 | the file after a write and its error; nothing changes on an error or a no-op |
| TimeSync.TimesyncdConf.ReadNTPServer | cmd/snapweb/datetime.go:148-166 | the first server, or the empty text |
| TimeSync.WriteIsPush | cmd/snapweb/datetime.go:67-95 | for every stored value, writing a text puts its words in front, unless it is the head already |
| TimeSync.WriteNothingIsPop | cmd/snapweb/datetime.go:71-79 | writing nothing drops the head, and the key with the last server |
| TimeSync.WriteSucceedsIff | cmd/snapweb/datetime.go:56-98 | when a write succeeds, and that a failed one changes nothing |
| TimeSync.TrimSpaceIs | cmd/snapweb/datetime.go:69 | trimming a server cuts off the white space at its ends and nothing else |
| TimeSync.ReadAfterWrite | cmd/snapweb/datetime.go:56-98 | a server name just written is the one read |
| TimeSync.PushThenPop | cmd/snapweb/datetime.go:56-98 | a push followed by a pop restores the list iff the name did not head it (and the list is not one blank entry) |
| TimeSync.NoDuplicatesAppear | cmd/snapweb/datetime.go:67-95 | writing single names and popping never puts a server next to itself |
| Texts.SplitJoin | cmd/snapweb/datetime.go:69-85 | splitting undoes joining |
| Texts.JoinSplit | cmd/snapweb/datetime.go:69-85 | and joining undoes splitting |
| TimeSync.TimeSettings.UpdateTimeDate | cmd/snapweb/datetime.go:104-112 | one call if the bus can be reached, none otherwise |
| TimeSync.TimeSettings.SetTimeInfo | cmd/snapweb/datetime.go:114-146 | the loop over the patch, in the order Go happens to choose |
| TimeSync.AtMostOneCall | cmd/snapweb/datetime.go:114-146 | whatever the order, at most one call reaches the bus |
| TimeSync.CallIsOfFirstReturningKey | cmd/snapweb/datetime.go:114-146 | the one call carries the value of the first key that returns, unless writing the server failed before, and its success is the result |
| TimeSync.NothingIsCalled | cmd/snapweb/datetime.go:114-146 | without such a key nothing is called, and the result is that of writing the server |
| TimeSync.FirstReturningKeyDecides | cmd/snapweb/datetime.go:114-146 | keys after the first one that returns have no effect |
| TimeSync.ServerIsWrittenIff | cmd/snapweb/datetime.go:122-125 | the server is written iff its key comes before every key that returns |
| TimeSync.EveryOrderAgreesIff | cmd/snapweb/datetime.go:114-146 | every order has the same outcome iff of several keys that return none makes a call, and a server beside such a key is a write that changes nothing and succeeds, or fails while that key makes no call either |
| TimeSync.OrderDoesNotMatter | cmd/snapweb/datetime.go:114-146 | so in particular with at most one recognised key among any others |
| TimeSync.OrderMayMatter | cmd/snapweb/datetime.go:114-146 | an instance with two recognised keys in which the orders differ |
| AccessToken.GenerateToken | cmd/generate-token/main.go:68-83 | the token of the random bytes, or the empty text if there are none |
| AccessToken.Overwrite | cmd/generate-token/main.go:77-80 | the loop replaces each byte, in place, by the character its remainder selects |
| AccessToken.AlphabetIs | cmd/generate-token/main.go:66 | the alphabet, position by position |
| AccessToken.TokenIs | cmd/generate-token/main.go:77-80 | each character is that of the alphabet at the remainder of its byte |
| AccessToken.PreimageSize | cmd/generate-token/main.go:77-80 | each token comes from 5^k * 4^(n-k) byte strings, k counting its characters among the first eight of the alphabet |
| AccessToken.CountsAddUp | cmd/generate-token/main.go:77-80 | the tokens are all strings over the alphabet, and their counts add up to 256^n |
| TimeZonePicker.DescriptionDecodes | www/src/js/common/time.js:48-61 | the description of every integer offset encodes its whole minutes, at most 1439, and its sign |
| TimeZonePicker.SameDescription | www/src/js/common/time.js:48-61 | two offsets are described alike iff those agree |
| TimeZonePicker.FormatIsInjective | www/src/js/common/time.js:1-7 | hours and minutes in range can be read back from the text |
| TimeZonePicker.PickIgnoresSeconds | www/src/js/common/time.js:48-75 | the choice depends only on the offset truncated toward zero to a minute |
| TimeZonePicker.PickIsFirstMatch | www/src/js/common/time.js:63-74 | the first zone with that description, else the first of the table |
| TimeZonePicker.EveryPick | www/src/js/common/time.js:9-75 | the row of the table that every integer offset picks |
| TimeZonePicker.OwnOffsetPicksFirst | www/src/js/common/time.js:9-75 | the offset of every zone of the table picks the first zone with those hours and minutes |
| HomeList.Collection.Add | www/src/js/controllers/home.js:26 | adding to a collection skips items whose id is present |
| HomeList.Collection.FilterInstalling | www/src/js/controllers/home.js:23-25 | the items being installed, in order |
| HomeList.Index | www/src/js/controllers/home.js:22-32 | the list that is shown, from the two fetched collections |
| HomeList.InstallingAreKept | www/src/js/controllers/home.js:23-25 | the snaps being installed are exactly the items with that status, in their order |
| HomeList.OthersAreKept | www/src/js/controllers/home.js:26-32 | the rest are exactly the items with other ids, in their order |
| HomeList.HomeListIs | www/src/js/controllers/home.js:22-32 | distinct ids: the snaps being installed, then the installed ones not among them; the silent add changes nothing |

## Left out

- HTTP routing, JSON, cookies, certificates, templates, mDNS, icons, prices, install dates and views: input and output with no deep state.
- snapd: an environment that answers snapshots, change IDs, errors and task lists; its own state machine is not part of this model.
- SnapOperations.Handler.InstallPackage: assumes, like RemovePackage and TrackedPackages, that snapd never returns a nil snap without an error, on which the program would crash.
- SnapOperations.SortStrings: stands for Go's `sort.Strings`, which compares bytes; characters are compared here, which gives the same order for UTF-8 text.
- Texts of snapd statuses other than "installed", "active" and "priced" are merged into one value; the tracker never tells them apart.
- Data races of Go's memory model: each unlocked read of the map and each filter request is one atomic step.
- SnapTracking.StateTracker: the term is the constant two minutes, in nanoseconds; the program itself never changes it.
- Backbone: a fetch or save ends in one `sync` or one `error`, `set` merges and remembers the attributes before it, the two flags are always present, and no other attributes than these and the status are modelled.
- PollLoop.SnapModel.Parse: download progress, sizes, icons, links and core-snap flags of `parse` are single assignments without consequence for polling.
- NetAddress: texts of addresses are not parsed; a CIDR text is an address with a prefix length, or malformed.
- TimeSync: the `ini` format and partial disk writes; the file is its `NTP` key, and a write either happens or fails.
- TimeSync.TimeSettings.SetTimeInfo: the conversion of a date from float64 seconds to int64 microseconds; the call records the seconds. `ntpServer` values are texts, as Go would panic on others.
- AccessToken.GenerateToken: randomness; the bytes are an arbitrary input. Writing the token to a file.
- TimeZonePicker: offsets that are not integers, and the fallback for `Math.sign`, which differs only at 0, where the hours are 0 anyway.
