/**
 The browser's side of the tracker: a snap model that, after every `add` or `sync` event that leaves it in a
 transient status, waits and fetches again. Requests and delays form chains, each started by one `add` event or
 one user request; a session runs a page of chains beside a run of the tracker.
 */
module PollLoop {
  import opened Wrappers
  import opened SnapTracking
  import opened TrackerRuns
  import opened TrackerGuarantees

  /** Sixteen milliseconds, in the nanoseconds of the tracker's clock. */
  const INSTALL_POLL_WAIT: nat := 16 * 1_000_000

  /** A status attribute: absent, the "cancel" a user may post, or one the server sent. */
  datatype UiStatus = Unset | CancelRequest | Known(status: Status)

  datatype Attributes = Attributes(status: UiStatus, isInstalled: bool, isEnabled: bool)

  /** A model and the attributes it had before its latest `set`. */
  datatype Model = Model(attrs: Attributes, previous: Attributes)

  predicate SchedulesFetch(s: UiStatus) {
    s == Known(Installing) || s == Known(Uninstalling) || s == Known(Disabling) || s == Known(Enabling)
  }

  predicate ShowsInstalled(s: Status) {
    s.Installed? || s.Active? || s.Uninstalling? || s.Enabling? || s.Disabling?
  }

  /** What `parse` makes of a response; one without a `state` brings no status. */
  function Parsed(state: Option<Status>): Attributes {
    match state
    case None => Attributes(Unset, false, false)
    case Some(s) => Attributes(Known(s), ShowsInstalled(s), s.Active?)
  }

  /** `set` merges: an attribute that is not given keeps its value, and none is ever removed. */
  function Set(m: Model, given: Attributes): Model {
    Model(given.(status := if given.status.Unset? then m.attrs.status else given.status), m.attrs)
  }

  function Receive(m: Model, state: Option<Status>): Model {
    Set(m, Parsed(state))
  }

  /**
   A model that is added: the handlers of `add` go on setting button texts and classes, after which the previous
   attributes hold the status the model was added with.
   */
  function Add(attrs: Attributes): Model {
    Model(attrs, attrs)
  }

  /** The `error` handler: a 404 while removing is no error, anything else brings the previous attributes back. */
  function Fail(m: Model, notFound: bool): Model {
    if notFound && m.attrs.status == Known(Uninstalling) then m else Set(m, m.previous)
  }

  // ---------------------------------------------------------------- the model in place

  class SnapModel {
    var attrs: Attributes
    var previous: Attributes
    /** When the outstanding delayed fetches are due. */
    var delays: multiset<nat>

    ghost function View(): Model
      reads this
    {
      Model(attrs, previous)
    }

    constructor (initial: Attributes)
      ensures View() == Add(initial) && delays == multiset{}
    {
      attrs, previous, delays := initial, initial, multiset{};
    }

    method SetAttributes(given: Attributes)
      modifies this`attrs, this`previous
      ensures View() == Set(old(View()), given)
    {
      previous := attrs;
      if given.status.Unset? {
        attrs := given.(status := attrs.status);
      } else {
        attrs := given;
      }
    }

    static method Parse(state: Option<Status>) returns (response: Attributes)
      ensures response == Parsed(state)
    {
      response := Attributes(Unset, false, false);
      if state.Some? {
        response := response.(status := Known(state.value));
      }
      response := response.(isInstalled := false);
      if state.Some? {
        var s := state.value;
        if s == Installed || s == Active || s == Uninstalling || s == Enabling || s == Disabling {
          response := response.(isInstalled := true);
        }
      }
      response := response.(isEnabled := false);
      if state == Some(Installed) {
        response := response.(isEnabled := false);
      } else if state == Some(Active) {
        response := response.(isEnabled := true);
      }
    }

    /** The handler of `add` and `sync`. */
    method OnAddOrSync(now: nat)
      modifies this`delays
      ensures delays == old(delays) +
        if SchedulesFetch(attrs.status) then multiset{now + INSTALL_POLL_WAIT} else multiset{}
    {
      var status := attrs.status;
      if
        || status == Known(Installing) || status == Known(Uninstalling)
        || status == Known(Disabling) || status == Known(Enabling)
      {
        delays := delays + multiset{now + INSTALL_POLL_WAIT};
      }
    }

    /** A fetch or save that succeeds: parse, set, then `sync`. */
    method OnSuccess(state: Option<Status>, now: nat)
      modifies this
      ensures View() == Receive(old(View()), state)
      ensures delays == old(delays) +
        if SchedulesFetch(attrs.status) then multiset{now + INSTALL_POLL_WAIT} else multiset{}
    {
      var response := Parse(state);
      SetAttributes(response);
      OnAddOrSync(now);
    }

    /** The handler of `error`: no fetch is ever scheduled. */
    method OnError(notFound: bool)
      modifies this`attrs, this`previous
      ensures View() == Fail(old(View()), notFound)
    {
      if notFound && attrs.status == Known(Uninstalling) { return; }
      SetAttributes(previous);
    }
  }

  /**
   A user request that fails at once leaves the attributes as they were, with two exceptions: a removal answered
   by a 404, and a status given to a model that had none, which `set` cannot take away again.
   */
  lemma FailedRequestIsUndone(m: Model, wanted: Attributes, notFound: bool)
    ensures var asked := Set(m, wanted);
      Fail(asked, notFound).attrs == m.attrs <==>
        || asked.attrs == m.attrs
        || (&& !(notFound && asked.attrs.status == Known(Uninstalling))
            && (m.attrs.status.Unset? ==> wanted.status.Unset?))
  {
  }

  /** A response without a state, as a save may bring, leaves the status as it was and clears both flags. */
  lemma ResponseWithoutState(m: Model)
    ensures var after := Receive(m, None);
      && after.attrs.status == m.attrs.status && !after.attrs.isInstalled && !after.attrs.isEnabled
      && after.previous == m.attrs
  {
  }

  /** A response with a state sets its status, and the flags are those of that status. */
  lemma ResponseWithState(m: Model, s: Status)
    ensures var after := Receive(m, Some(s));
      && after.attrs.status == Known(s) && after.previous == m.attrs
      && (after.attrs.isInstalled <==> s !in {Uninstalled, Priced, Installing})
      && (after.attrs.isEnabled <==> s == Active)
  {
  }

  /** The first fetch of a model that was just added, if it fails, leaves it as it was added. */
  lemma FailureAfterAddIsUndone(attrs: Attributes, notFound: bool)
    ensures Fail(Add(attrs), notFound).attrs == attrs
  {
  }

  /**
   In every reachable state of the tracker the installed flag a poll shows agrees with the snapshot the server saw,
   except exactly when the name is tracked as being enabled or disabled and the snapshot is not installed; the
   enabled flag shows an active snap on which no operation is under way.
   */
  lemma FlagsAgree(r: Run, n: nat, client: Client, snap: Snap, m: Model)
    requires r.Valid() && n <= |r.events|
    ensures var shown := Receive(m, Some(Reported(r.States(n), client, snap).status)).attrs;
      && (shown.isInstalled != IsInstalled(snap) <==>
          snap.name in r.States(n) && r.States(n)[snap.name].status in {Enabling, Disabling} && !IsInstalled(snap))
      && (shown.isEnabled <==> snap.status.SnapdActive? && !Runs(r.States(n), snap))
  {
    StoredEntriesCarryNoProgress(r, n);
    if Runs(r.States(n), snap) { ProgressKeepsOperation(client, r.States(n)[snap.name]); }
  }

  /** A snap removed while it is being enabled goes on being shown as installed. */
  lemma FlagsMayDisagree(client: Client, m: Model) returns (r: Run)
    ensures r.Valid() && |r.events| == 2
    ensures var gone := Snap("s", SnapdOther);
      Receive(m, Some(Reported(r.States(2), client, gone).status)).attrs.isInstalled && !IsInstalled(gone)
  {
    r := Then(NEW_RUN, Check(0, Enabling, "1", Snap("s", SnapdInstalled)));
    r := Then(r, Commit(0));
    ProgressKeepsOperation(client, r.States(2)["s"]);
  }

  // ---------------------------------------------------------------- chains

  datatype Answer = Answer(at: nat, status: Status)

  /**
   Where a chain is: on a delay, on a fetch, holding the server's answer, on a user request, or over. A failure may
   have met a fetch that the server never answered.
   */
  datatype Phase =
    | Waiting(due: nat) | Fetching | Answered | Requesting
    | Settled | Failed(unanswered: bool)

  /** A chain with the answers the server gave to its fetches, oldest first. */
  datatype Chain = Chain(phase: Phase, answers: seq<Answer>)

  datatype Page = Page(model: Model, chains: map<nat, Chain>)

  datatype Move =
    | Pass
    | Added(id: nat, attrs: Attributes)
    | UserSaves(id: nat, attrs: Attributes)
    | UserFetches(id: nat)
    | DelayEnds(id: nat)
    | ServerAnswers(id: nat, client: Client)
    | FetchSyncs(id: nat)
    | SaveSyncs(id: nat, parses: bool)
    | RequestFails(id: nat, notFound: bool)

  predicate Starts(m: Move) {
    m.Added? || m.UserSaves? || m.UserFetches?
  }

  function AfterHandler(status: UiStatus, now: nat): Phase {
    if SchedulesFetch(status) then Waiting(now + INSTALL_POLL_WAIT) else Settled
  }

  predicate InPhase(p: Page, id: nat, phase: Phase) {
    id in p.chains && p.chains[id].phase == phase
  }

  predicate InFlight(p: Page, id: nat) {
    InPhase(p, id, Fetching) || InPhase(p, id, Answered) || InPhase(p, id, Requesting)
  }

  /** Whether a move can happen now: new chains have new ids, and a chain that exists goes on from its phase. */
  predicate Allowed(p: Page, m: Move, now: nat) {
    match m
    case Pass => true
    case Added(id, _) => id !in p.chains
    case UserSaves(id, _) => id !in p.chains
    case UserFetches(id) => id !in p.chains
    case DelayEnds(id) => id in p.chains && p.chains[id].phase.Waiting? && p.chains[id].phase.due <= now
    case ServerAnswers(id, _) => InPhase(p, id, Fetching)
    case FetchSyncs(id) => InPhase(p, id, Answered) && p.chains[id].answers != []
    case SaveSyncs(id, _) => InPhase(p, id, Requesting)
    case RequestFails(id, _) => InFlight(p, id)
  }

  function Put(p: Page, id: nat, phase: Phase): Page {
    var answers := if id in p.chains then p.chains[id].answers else [];
    p.(chains := p.chains[id := Chain(phase, answers)])
  }

  /** `reply` is the status the server gives if this is the moment at which it answers. */
  function ApplyMove(p: Page, m: Move, now: nat, reply: Status): Page
    requires Allowed(p, m, now)
  {
    match m
    case Pass => p
    case Added(id, attrs) => Put(p.(model := Add(attrs)), id, AfterHandler(attrs.status, now))
    case UserSaves(id, attrs) => Put(p.(model := Set(p.model, attrs)), id, Requesting)
    case UserFetches(id) => Put(p, id, Fetching)
    case DelayEnds(id) => Put(p, id, Fetching)
    case ServerAnswers(id, _) =>
      p.(chains := p.chains[id := Chain(Answered, p.chains[id].answers + [Answer(now, reply)])])
    case FetchSyncs(id) =>
      var answers := p.chains[id].answers;
      var model := Receive(p.model, Some(answers[|answers| - 1].status));
      Put(p.(model := model), id, AfterHandler(model.attrs.status, now))
    case SaveSyncs(id, parses) =>
      var model := if parses then Receive(p.model, None) else p.model;
      Put(p.(model := model), id, AfterHandler(model.attrs.status, now))
    case RequestFails(id, notFound) =>
      Put(p.(model := Fail(p.model, notFound)), id, Failed(p.chains[id].phase.Fetching?))
  }

  /**
   A user request on a page, and how it ends. The wanted attributes show at once; a success keeps the status, clears
   the flags if its response is parsed, and goes on polling iff the status is transient; a failure takes the
   wanted attributes back, but for a removal answered by a 404 and a first status, and ends the chain.
   */
  lemma RequestOnPage(p: Page, id: nat, wanted: Attributes, now: nat, reply: Status, parses: bool, notFound: bool)
    requires id !in p.chains
    ensures var asked := ApplyMove(p, UserSaves(id, wanted), now, reply);
      var saved := ApplyMove(asked, SaveSyncs(id, parses), now, reply);
      var failed := ApplyMove(asked, RequestFails(id, notFound), now, reply);
      var status := if wanted.status == Unset then p.model.attrs.status else wanted.status;
      && asked.model.attrs == Attributes(status, wanted.isInstalled, wanted.isEnabled)
      && asked.chains == p.chains[id := Chain(Requesting, [])]
      && saved.model.attrs == (if parses then Attributes(status, false, false) else asked.model.attrs)
      && saved.chains[id].phase == (if status.Known? && IsTransient(status.status)
                                    then Waiting(now + INSTALL_POLL_WAIT) else Settled)
      && (!(notFound && status == Known(Uninstalling)) && p.model.attrs.status != Unset ==>
            failed.model.attrs == p.model.attrs)
      && failed.chains[id] == Chain(Failed(false), [])
  {
  }

  /** A page beside a run of the tracker: move `i` happens at event `i`, and answers are reports. */
  datatype Session = Session(run: Run, name: string, pages: seq<Page>, moves: seq<Move>) {
    ghost predicate Step(i: nat)
      requires i < |run.events| < |run.at| && i < |moves| < |pages|
    {
      && Allowed(pages[i], moves[i], run.Now(i))
      && (moves[i].ServerAnswers? ==> run.events[i].Report? && run.events[i].snap.name == name)
      && pages[i + 1] == ApplyMove(pages[i], moves[i], run.Now(i), Reply(i))
    }

    function Reply(i: nat): Status
      requires i < |run.events| < |run.at| && i < |moves|
    {
      if moves[i].ServerAnswers? && run.events[i].Report?
      then Reported(run.States(i), moves[i].client, run.events[i].snap).status
      else Uninstalled
    }

    ghost predicate Valid() {
      && run.Valid() && |moves| == |run.events| && |pages| == |moves| + 1
      && pages[0].chains == map[]
      && forall i :: 0 <= i < |moves| ==> Step(i)
    }
  }

  // ---------------------------------------------------------------- conservation of chains

  function CountStarts(moves: seq<Move>): nat {
    if moves == [] then 0 else CountStarts(moves[..|moves| - 1]) + if Starts(moves[|moves| - 1]) then 1 else 0
  }

  function Over(p: Page): set<nat> {
    set id | id in p.chains && (p.chains[id].phase.Settled? || p.chains[id].phase.Failed?)
  }

  /** Outstanding delays and requests: the chains still alive. */
  function Alive(p: Page): set<nat> {
    p.chains.Keys - Over(p)
  }

  lemma MovesKeepChains(p: Page, m: Move, now: nat, reply: Status)
    requires Allowed(p, m, now)
    ensures var q := ApplyMove(p, m, now, reply);
      && q.chains.Keys == (if Starts(m) then p.chains.Keys + {m.id} else p.chains.Keys)
      && Over(p) <= Over(q)
  {
  }

  lemma AliveOrOver(p: Page)
    ensures |Alive(p)| + |Over(p)| == |p.chains.Keys|
  {
    assert Alive(p) + Over(p) == p.chains.Keys;
  }

  lemma {:induction false} ChainsMatchStarts(s: Session, n: nat)
    requires s.Valid() && n <= |s.moves|
    ensures |s.pages[n].chains.Keys| == CountStarts(s.moves[..n])
  {
    if n == 0 {
      assert s.moves[..0] == [] && s.pages[0].chains.Keys == {};
    } else {
      ChainsMatchStarts(s, n - 1);
      assert s.Step(n - 1) && s.moves[..n][..n - 1] == s.moves[..n - 1];
      MovesKeepChains(s.pages[n - 1], s.moves[n - 1], s.run.Now(n - 1), s.Reply(n - 1));
    }
  }

  /** Chains are conserved: those alive and those over are together as many as the starts, and none revives. */
  lemma ChainsAreConserved(s: Session, n: nat)
    requires s.Valid() && n <= |s.moves|
    ensures |Alive(s.pages[n])| + |Over(s.pages[n])| == CountStarts(s.moves[..n])
    ensures n > 0 ==> Over(s.pages[n - 1]) <= Over(s.pages[n])
  {
    ChainsMatchStarts(s, n);
    AliveOrOver(s.pages[n]);
    if n > 0 {
      assert s.Step(n - 1);
      MovesKeepChains(s.pages[n - 1], s.moves[n - 1], s.run.Now(n - 1), s.Reply(n - 1));
    }
  }

  // ---------------------------------------------------------------- chains and the delays of the object

  /** The chains waiting for a delay that is due at `due`. */
  function WaitingFor(p: Page, due: nat): set<nat> {
    set id | id in p.chains && p.chains[id].phase == Waiting(due)
  }

  /** The outstanding delays are exactly those the chains of the page wait for. */
  ghost predicate DelaysAre(delays: multiset<nat>, p: Page) {
    forall due: nat :: delays[due] == |WaitingFor(p, due)|
  }

  function DelayOf(phase: Phase): multiset<nat> {
    if phase.Waiting? then multiset{phase.due} else multiset{}
  }

  function PhaseDelay(p: Page, id: nat): multiset<nat> {
    if id in p.chains then DelayOf(p.chains[id].phase) else multiset{}
  }

  lemma OwnDelay(p: Page, id: nat, due: nat)
    ensures |WaitingFor(p, due)| == |WaitingFor(p, due) - {id}| + PhaseDelay(p, id)[due]
  {
    var others := WaitingFor(p, due) - {id};
    if PhaseDelay(p, id)[due] == 1 {
      assert WaitingFor(p, due) == others + {id};
    } else {
      assert WaitingFor(p, due) == others;
    }
  }

  /** `q` is `p` with another chain, or another phase, at `id`. */
  ghost predicate DiffersAt(p: Page, q: Page, id: nat) {
    && q.chains.Keys == p.chains.Keys + {id}
    && forall other :: other in p.chains && other != id ==> q.chains[other] == p.chains[other]
  }

  lemma OthersWaitAlike(p: Page, q: Page, id: nat, due: nat)
    requires DiffersAt(p, q, id)
    ensures WaitingFor(p, due) - {id} == WaitingFor(q, due) - {id}
  {
    forall other ensures other in WaitingFor(p, due) - {id} <==> other in WaitingFor(q, due) - {id} {
      if other != id { assert other in p.chains.Keys <==> other in q.chains.Keys; }
    }
  }

  /** A chain that changes its phase exchanges its own delay, and no other. */
  lemma PhaseExchangesDelay(p: Page, q: Page, id: nat, due: nat)
    requires DiffersAt(p, q, id)
    ensures |WaitingFor(q, due)| + PhaseDelay(p, id)[due] == |WaitingFor(p, due)| + PhaseDelay(q, id)[due]
  {
    OwnDelay(p, id, due);
    OwnDelay(q, id, due);
    OthersWaitAlike(p, q, id, due);
  }

  /** The delay the handler of `add` and `sync` sets. */
  function NewDelay(status: UiStatus, now: nat): multiset<nat> {
    if SchedulesFetch(status) then multiset{now + INSTALL_POLL_WAIT} else multiset{}
  }

  /** What a move does to the outstanding delays: an `add` or a `sync` may set one, and its end takes one away. */
  function DelaysAfter(delays: multiset<nat>, p: Page, m: Move, q: Page, now: nat): multiset<nat>
    requires Allowed(p, m, now)
  {
    match m
    case Added(_, _) => delays + NewDelay(q.model.attrs.status, now)
    case FetchSyncs(_) => delays + NewDelay(q.model.attrs.status, now)
    case SaveSyncs(_, _) => delays + NewDelay(q.model.attrs.status, now)
    case DelayEnds(id) => delays - multiset{p.chains[id].phase.due}
    case _ => delays
  }

  lemma MoveTouchesOneChain(p: Page, m: Move, now: nat, reply: Status)
    requires Allowed(p, m, now) && !m.Pass?
    ensures DiffersAt(p, ApplyMove(p, m, now, reply), m.id)
  {
  }

  lemma MoveExchangesOwnDelay(delays: multiset<nat>, p: Page, m: Move, now: nat, reply: Status, due: nat)
    requires Allowed(p, m, now) && !m.Pass? && PhaseDelay(p, m.id) <= delays
    ensures var q := ApplyMove(p, m, now, reply);
      DelaysAfter(delays, p, m, q, now)[due] + PhaseDelay(p, m.id)[due] == delays[due] + PhaseDelay(q, m.id)[due]
  {
  }

  lemma OwnDelayIsOutstanding(delays: multiset<nat>, p: Page, id: nat)
    requires DelaysAre(delays, p)
    ensures PhaseDelay(p, id) <= delays
  {
    if id in p.chains && p.chains[id].phase.Waiting? {
      assert id in WaitingFor(p, p.chains[id].phase.due);
    }
  }

  lemma MoveKeepsDelays(delays: multiset<nat>, p: Page, m: Move, now: nat, reply: Status)
    requires Allowed(p, m, now) && DelaysAre(delays, p)
    ensures var q := ApplyMove(p, m, now, reply); DelaysAre(DelaysAfter(delays, p, m, q, now), q)
  {
    if !m.Pass? {
      var q := ApplyMove(p, m, now, reply);
      OwnDelayIsOutstanding(delays, p, m.id);
      MoveTouchesOneChain(p, m, now, reply);
      forall due: nat ensures DelaysAfter(delays, p, m, q, now)[due] == |WaitingFor(q, due)| {
        MoveExchangesOwnDelay(delays, p, m, now, reply, due);
        PhaseExchangesDelay(p, q, m.id, due);
      }
    }
  }

  /** The object goes through one move of a page by running its own handlers. */
  method PerformMove(browser: SnapModel, p: Page, m: Move, now: nat, reply: Status)
    requires Allowed(p, m, now) && browser.View() == p.model
    modifies browser
    ensures browser.View() == ApplyMove(p, m, now, reply).model
    ensures browser.delays == DelaysAfter(old(browser.delays), p, m, ApplyMove(p, m, now, reply), now)
  {
    match m {
      case Added(_, attrs) =>
        browser.attrs, browser.previous := attrs, attrs;
        browser.OnAddOrSync(now);
      case UserSaves(_, attrs) =>
        browser.SetAttributes(attrs);
      case DelayEnds(id) =>
        browser.delays := browser.delays - multiset{p.chains[id].phase.due};
      case FetchSyncs(id) =>
        var answers := p.chains[id].answers;
        browser.OnSuccess(Some(answers[|answers| - 1].status), now);
      case SaveSyncs(_, parses) =>
        if parses { browser.OnSuccess(None, now); } else { browser.OnAddOrSync(now); }
      case RequestFails(_, notFound) =>
        browser.OnError(notFound);
      case _ =>
    }
  }

  /** Along a whole session the object's outstanding delays are those its chains wait for. */
  method Play(browser: SnapModel, s: Session, n: nat)
    requires s.Valid() && n <= |s.moves| && browser.View() == s.pages[0].model && browser.delays == multiset{}
    modifies browser
    ensures browser.View() == s.pages[n].model && DelaysAre(browser.delays, s.pages[n])
  {
    for i := 0 to n
      invariant browser.View() == s.pages[i].model && DelaysAre(browser.delays, s.pages[i])
    {
      assert s.Step(i);
      MoveKeepsDelays(browser.delays, s.pages[i], s.moves[i], s.run.Now(i), s.Reply(i));
      PerformMove(browser, s.pages[i], s.moves[i], s.run.Now(i), s.Reply(i));
    }
  }

  function WaitingChains(p: Page): set<nat> {
    set id | id in p.chains && p.chains[id].phase.Waiting?
  }

  lemma WaitingIsOutstanding(delays: multiset<nat>, p: Page)
    requires DelaysAre(delays, p)
    ensures delays == multiset{} <==> WaitingChains(p) == {}
  {
    forall id | id in WaitingChains(p) ensures p.chains[id].phase.due in delays {
      assert id in WaitingFor(p, p.chains[id].phase.due);
    }
    if due :| due in delays {
      var id := WaitsFor(delays, p, due);
      assert id in WaitingChains(p);
    }
  }

  lemma WaitsFor(delays: multiset<nat>, p: Page, due: nat) returns (id: nat)
    requires DelaysAre(delays, p) && due in delays
    ensures id in WaitingFor(p, due)
  {
    assert WaitingFor(p, due) != {};
    id :| id in WaitingFor(p, due);
  }

  lemma OneWaitsLess(p: Page, rest: Page, id: nat)
    requires id in WaitingChains(p) && rest.chains == p.chains - {id}
    ensures |WaitingChains(p)| == |WaitingChains(rest)| + 1
  {
    assert WaitingChains(rest) == WaitingChains(p) - {id};
  }

  /** As many delays are outstanding as chains wait. */
  lemma {:induction false} DelaysCount(delays: multiset<nat>, p: Page)
    requires DelaysAre(delays, p)
    ensures |delays| == |WaitingChains(p)|
    decreases |delays|
  {
    WaitingIsOutstanding(delays, p);
    if due :| due in delays {
      var id := WaitsFor(delays, p, due);
      var rest := p.(chains := p.chains - {id});
      LessOneDelay(delays, p, rest, id, due);
      DelaysCount(delays - multiset{due}, rest);
      OneWaitsLess(p, rest, id);
    }
  }

  lemma LessOneDelay(delays: multiset<nat>, p: Page, rest: Page, id: nat, due: nat)
    requires DelaysAre(delays, p) && id in WaitingFor(p, due) && rest.chains == p.chains - {id} && due in delays
    ensures DelaysAre(delays - multiset{due}, rest)
  {
    forall d: nat ensures (delays - multiset{due})[d] == |WaitingFor(rest, d)| {
      assert WaitingFor(rest, d) == WaitingFor(p, d) - {id};
    }
  }

  /** The delays outstanding never outnumber the add events and user requests so far. */
  lemma DelaysNeverOutnumberStarts(s: Session, n: nat, delays: multiset<nat>)
    requires s.Valid() && n <= |s.moves| && DelaysAre(delays, s.pages[n])
    ensures |delays| == |WaitingChains(s.pages[n])| <= |Alive(s.pages[n])| <= CountStarts(s.moves[..n])
  {
    DelaysCount(delays, s.pages[n]);
    ChainsAreConserved(s, n);
    SubsetSize(WaitingChains(s.pages[n]), Alive(s.pages[n]));
  }

  lemma SubsetSize(a: set<nat>, b: set<nat>)
    requires a <= b
    ensures |a| <= |b|
  {
    assert b == a + (b - a);
  }

  // ---------------------------------------------------------------- the shape of a chain

  /** Polls are at least one wait apart, and only the last answer may be settled. */
  ghost predicate WellSpaced(c: Chain, now: nat) {
    && (forall i :: 0 <= i < |c.answers| ==> c.answers[i].at <= now)
    && (forall i, j :: 0 <= i < j < |c.answers| ==>
          c.answers[i].at + (j - i) * INSTALL_POLL_WAIT <= c.answers[j].at)
    && (forall i :: 0 <= i < |c.answers| - 1 ==> IsTransient(c.answers[i].status))
  }

  /** A fetch is under way, or ended in an error before the server answered. */
  predicate AwaitsAnswer(phase: Phase) {
    phase.Fetching? || phase == Failed(true)
  }

  ghost predicate ChainOk(c: Chain, now: nat) {
    && WellSpaced(c, now)
    && (c.phase.Waiting? || AwaitsAnswer(c.phase) ==>
          forall i :: 0 <= i < |c.answers| ==> IsTransient(c.answers[i].status))
    && (c.phase.Waiting? && c.answers != [] ==> c.answers[|c.answers| - 1].at + INSTALL_POLL_WAIT <= c.phase.due)
    && (c.phase.Fetching? && c.answers != [] ==> c.answers[|c.answers| - 1].at + INSTALL_POLL_WAIT <= now)
    && (c.phase.Answered? ==> c.answers != [])
    && (c.phase.Requesting? ==> c.answers == [])
    && (c.phase.Settled? && c.answers != [] ==> !IsTransient(c.answers[|c.answers| - 1].status))
  }

  lemma OneMoreAnswer(c: Chain, now: nat, status: Status)
    requires ChainOk(c, now) && c.phase.Fetching?
    ensures ChainOk(Chain(Answered, c.answers + [Answer(now, status)]), now)
  {
    var answers := c.answers + [Answer(now, status)];
    forall i, j | 0 <= i < j < |answers| ensures answers[i].at + (j - i) * INSTALL_POLL_WAIT <= answers[j].at {
      if j == |answers| - 1 && i < j - 1 {
        assert c.answers[i].at + (j - 1 - i) * INSTALL_POLL_WAIT <= c.answers[j - 1].at;
      }
    }
  }

  lemma HandledIsOk(c: Chain, status: UiStatus, now: nat)
    requires WellSpaced(c, now)
    requires c.answers != [] ==> status == Known(c.answers[|c.answers| - 1].status)
    ensures ChainOk(Chain(AfterHandler(status, now), c.answers), now)
  {
    assert c.answers != [] ==> (SchedulesFetch(status) <==> IsTransient(c.answers[|c.answers| - 1].status));
  }

  lemma FailedIsOk(c: Chain, now: nat)
    requires ChainOk(c, now)
    ensures ChainOk(Chain(Failed(c.phase.Fetching?), c.answers), now)
  {
  }

  lemma MoveKeepsChainOk(p: Page, m: Move, now: nat, reply: Status, id: nat)
    requires Allowed(p, m, now) && id in ApplyMove(p, m, now, reply).chains
    requires id in p.chains ==> ChainOk(p.chains[id], now)
    ensures ChainOk(ApplyMove(p, m, now, reply).chains[id], now)
  {
    var q := ApplyMove(p, m, now, reply);
    if m.Pass? || m.id != id {
      assert q.chains[id] == p.chains[id];
    } else if id !in p.chains {
      assert q.chains[id].answers == [];
    } else if m.ServerAnswers? {
      OneMoreAnswer(p.chains[id], now, reply);
    } else if m.FetchSyncs? || m.SaveSyncs? {
      HandledIsOk(p.chains[id], q.model.attrs.status, now);
    } else if m.RequestFails? {
      FailedIsOk(p.chains[id], now);
    }
  }

  lemma LaterIsOk(c: Chain, now: nat, later: nat)
    requires ChainOk(c, now) && now <= later
    ensures ChainOk(c, later)
  {
  }

  /** Every chain polls at intervals, stops at its first settled answer, and never goes on after a failure. */
  lemma {:induction false} ChainsAreOk(s: Session, n: nat, id: nat)
    requires s.Valid() && n <= |s.moves| && id in s.pages[n].chains
    ensures ChainOk(s.pages[n].chains[id], s.run.Now(n))
  {
    assert n > 0 && s.Step(n - 1);
    ClockIsMonotone(s.run, n - 1, n);
    if id in s.pages[n - 1].chains {
      ChainsAreOk(s, n - 1, id);
    }
    MoveKeepsChainOk(s.pages[n - 1], s.moves[n - 1], s.run.Now(n - 1), s.Reply(n - 1), id);
    LaterIsOk(s.pages[n].chains[id], s.run.Now(n - 1), s.run.Now(n));
  }

  /** A chain that is over never moves again. */
  lemma {:induction false} OverIsFinal(s: Session, i: nat, n: nat, id: nat)
    requires s.Valid() && i <= n <= |s.moves| && id in Over(s.pages[i])
    ensures id in s.pages[n].chains && s.pages[n].chains[id] == s.pages[i].chains[id]
  {
    if i < n {
      OverIsFinal(s, i, n - 1, id);
      assert s.Step(n - 1);
    }
  }

  // ---------------------------------------------------------------- how often a chain polls

  /** How many answers the chain already had on this page; none if it had not begun. */
  function AnswersBy(p: Page, id: nat): nat {
    if id in p.chains then |p.chains[id].answers| else 0
  }

  /** Each answer a chain gained since `k` was a report on the tracker. */
  lemma {:induction false} AnswersAreReports(s: Session, k: nat, n: nat, id: nat, a: nat) returns (e: nat)
    requires s.Valid() && k <= n <= |s.moves|
    requires AnswersBy(s.pages[k], id) <= a < AnswersBy(s.pages[n], id)
    ensures k <= e < n && s.run.events[e].Report? && s.run.events[e].snap.name == s.name && s.moves[e].ServerAnswers?
    ensures s.pages[n].chains[id].answers[a] == Answer(s.run.Now(e), s.Reply(e))
  {
    assert k < n && s.Step(n - 1);
    if a < AnswersBy(s.pages[n - 1], id) {
      e := AnswersAreReports(s, k, n - 1, id, a);
    } else {
      e := n - 1;
    }
  }

  /** A transient answer given after the latest commit comes at most one term after it. */
  lemma TransientAnswerIsRecent(s: Session, k: nat, n: nat, id: nat, a: nat)
    requires s.Valid() && k < n <= |s.moves| && s.run.LatestCommit(k, n, s.name)
    requires AnswersBy(s.pages[k + 1], id) <= a < AnswersBy(s.pages[n], id)
    ensures s.run.Now(k) <= s.pages[n].chains[id].answers[a].at
    ensures IsTransient(s.pages[n].chains[id].answers[a].status) ==>
      s.pages[n].chains[id].answers[a].at <= s.run.Now(k) + TRACKER_DURATION
  {
    var e := AnswersAreReports(s, k + 1, n, id, a);
    ClockIsMonotone(s.run, k, e);
    if IsTransient(s.Reply(e)) {
      var snap := s.run.events[e].snap;
      BoundedStaleness(s.run, e, s.moves[e].client, snap);
      var k' :| LastTracked(s.run, k', e, s.name, Reported(s.run.States(e), s.moves[e].client, snap));
      assert k' == k;
    }
  }

  /** The fetches of a chain: those the server has answered, and the one it may be about to answer or never did. */
  function Fetches(c: Chain): nat {
    |c.answers| + if AwaitsAnswer(c.phase) then 1 else 0
  }

  /**
   Polling is bounded. Once an operation on the name has been tracked, and as long as it is not tracked again,
   a chain makes at most `TRACKER_DURATION / INSTALL_POLL_WAIT + 2`, that is 7502, further fetches.
   */
  lemma PollingIsBounded(s: Session, k: nat, n: nat, id: nat)
    requires s.Valid() && k < n <= |s.moves| && s.run.LatestCommit(k, n, s.name) && id in s.pages[n].chains
    ensures Fetches(s.pages[n].chains[id]) - AnswersBy(s.pages[k + 1], id)
      <= TRACKER_DURATION / INSTALL_POLL_WAIT + 2 == 7502
  {
    ChainsAreOk(s, n, id);
    var c := s.pages[n].chains[id];
    var first := AnswersBy(s.pages[k + 1], id);
    var last := if AwaitsAnswer(c.phase) then |c.answers| - 1 else |c.answers| - 2;
    if first <= last {
      TransientAnswerIsRecent(s, k, n, id, first);
      TransientAnswerIsRecent(s, k, n, id, last);
      assert first < last ==> c.answers[first].at + (last - first) * INSTALL_POLL_WAIT <= c.answers[last].at;
    }
  }
}
