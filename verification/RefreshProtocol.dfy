/**
 The session-refresh protocol of the web client as a state machine.

 One browser tab holds a token store, the refresh controller and any number of fetcher calls.
 JavaScript runs each stretch of code between two awaits without interruption; every event
 below is one such stretch, and events interleave in any order the awaits allow.
 */
module RefreshProtocol {
  import opened Common
  import opened RealmUrl
  import opened RefreshController

  /** A null and an undefined token are the same to every reader of the store. */
  datatype Store = Store(access: Option<string>, refresh: Option<string>, id: Option<string>)

  const SIGNED_OUT := Store(None, None, None)

  /** JavaScript's truth of a nullable string. */
  predicate Truthy(s: Option<string>) {
    s.Some? && s.value != ""
  }

  datatype Stage =
    | Sent                          // awaiting the answer to its own request
    | Waiting(flight: nat)          // awaiting a refresh
    | Refused                       // the controller rejected it with BLOCKED
    | Replaying                     // awaiting the answer to the replay
    | Returned(status: int)
    | Threw(error: Option<int>)     // the status; None for a network error, which has none

  /** A fetcher call; all fields but `stage` are its history. */
  datatype Call = Call(
    path: string,
    sends: seq<Option<string>>,     // the access tokens its own requests carried
    writes: seq<Store>,             // what it wrote to the store
    answered: Option<int>,          // the status of the first answer
    held: Option<string>,           // the refresh token it read on a 401
    waited: Option<nat>,            // the flight it awaited
    caught: Option<string>,         // the error its catch clause saw
    stage: Stage)

  datatype Tab = Tab(
    store: Store,
    now: nat,
    ctl: Controller,
    calls: seq<Call>,
    issued: set<(Option<string>, Option<string>)>)  // history: (access, refresh) of each login and token answer

  predicate Ok(status: int) {
    200 <= status < 300
  }

  // ---------------------------------------------------------------- the stretches of a fetcher call

  function Finished(c: Call, status: int): Call {
    c.(stage := if Ok(status) then Returned(status) else Threw(Some(status)))
  }

  /** fetcher is called: the first request goes out with the stored access token. */
  function Begin(s: Tab, path: string): Tab {
    s.(calls := s.calls + [Call(path, [s.store.access], [], None, None, None, None, Sent)])
  }

  /** The first answer arrives. */
  function FirstAnswer(s: Tab, i: nat, status: int): Tab
    requires Indexed(s.ctl) && i < |s.calls|
  {
    var c := s.calls[i].(answered := Some(status));
    var realm := ExtractRealm(c.path);
    if status == 401 && !IsTokenEndpoint(c.path) && Truthy(s.store.refresh) && realm.Some? then
      var (ctl, flight) := Run(s.ctl, s.now, realm.value, ByCall(i), s.store.refresh.value);
      var stage := if flight.Some? then Waiting(flight.value) else Refused;
      var c1 := c.(held := s.store.refresh, waited := flight, stage := stage);
      s.(ctl := ctl, calls := s.calls[i := c1])
    else
      s.(calls := s.calls[i := Finished(c, status)])
  }

  /** The catch clause: the original 401 still throws; the store is cleared unless the error is BLOCKED. */
  function RefreshFailed(s: Tab, i: nat, message: string): Tab
    requires i < |s.calls|
  {
    var c := s.calls[i].(caught := Some(message), stage := Threw(Some(401)));
    if message == BLOCKED then s.(calls := s.calls[i := c])
    else s.(store := SIGNED_OUT, calls := s.calls[i := c.(writes := c.writes + [SIGNED_OUT])])
  }

  predicate CanWake(c: Controller, f: nat) {
    f < |c.flights| && !Open(c.flights[f])
  }

  /** The awaited refresh is over: store the tokens and replay, or fail. */
  function Wake(s: Tab, i: nat): Tab
    requires i < |s.calls|
    requires s.calls[i].stage.Refused? || (s.calls[i].stage.Waiting? && CanWake(s.ctl, s.calls[i].stage.flight))
  {
    var c := s.calls[i];
    if c.stage.Refused? then RefreshFailed(s, i, BLOCKED)
    else
      var f := s.ctl.flights[c.stage.flight];
      match OutcomeOf(f.starter, f.phase.answer)
      case Thrown(m) => RefreshFailed(s, i, m)
      case Undefined => RefreshFailed(s, i, TYPE_ERROR)
      case Tokens(g) =>
        var written := Store(g.access, g.refresh, if g.id.Some? then g.id else s.store.id);
        s.(store := written,
           calls := s.calls[i := c.(sends := c.sends + [g.access], writes := c.writes + [written], stage := Replaying)])
  }

  // ---------------------------------------------------------------- the other actors

  /** setAuthTokensWrapper: a login, or the hook storing the tokens it fetched. */
  function Login(s: Tab, realm: string, tokens: Store): Tab {
    s.(ctl := Reset(s.ctl, realm), store := tokens, issued := s.issued + {(tokens.access, tokens.refresh)})
  }

  /** clearAuthState */
  function Logout(s: Tab, realm: string): Tab {
    s.(ctl := Reset(s.ctl, realm), store := SIGNED_OUT)
  }

  /**
   The refresh request of flight `f` is answered.  The hook's own factory stores the tokens before its
   promise fulfils; `hookId` is the id token it falls back on.
   */
  function TokenAnswer(s: Tab, f: nat, answer: Answer, hookId: Option<string>): Tab
    requires f < |s.ctl.flights| && s.ctl.flights[f].record < |s.ctl.records|
  {
    var s1 :=
      if s.ctl.flights[f].starter.ByHook? && answer.Body? then
        var g := answer.grant;
        Login(s, RealmOf(s.ctl, f), Store(g.access, g.refresh, if g.id.Some? then g.id else hookId))
      else s;
    s1.(ctl := Settle(s1.ctl, s1.now, f, answer),
        issued := s1.issued + if answer.Body? then {(answer.grant.access, answer.grant.refresh)} else {})
  }

  // ---------------------------------------------------------------- events and runs

  datatype Event =
    | DoBegin(path: string)
    | DoFirstAnswer(call: nat, status: int)
    | DoFirstFail(call: nat)
    | DoWake(call: nat)
    | DoReplayAnswer(call: nat, status: int)
    | DoReplayFail(call: nat, message: string)
    | DoTokenAnswer(flight: nat, answer: Answer, hookId: Option<string>)
    | DoClear(flight: nat)
    | DoHookRefresh(realm: string, presented: string)
    | DoLogin(realm: string, tokens: Store)
    | DoLogout(realm: string)
    | DoTick(ms: nat)

  predicate Enabled(s: Tab, e: Event) {
    && Indexed(s.ctl)
    && match e
       case DoHookRefresh(_, presented) => presented != ""
       case DoBegin(_) | DoLogin(_, _) | DoLogout(_) | DoTick(_) => true
       case DoFirstAnswer(i, _) => i < |s.calls| && s.calls[i].stage.Sent?
       case DoFirstFail(i) => i < |s.calls| && s.calls[i].stage.Sent?
       case DoWake(i) =>
         && i < |s.calls|
         && (s.calls[i].stage.Refused? || (s.calls[i].stage.Waiting? && CanWake(s.ctl, s.calls[i].stage.flight)))
       case DoReplayAnswer(i, _) => i < |s.calls| && s.calls[i].stage.Replaying?
       case DoReplayFail(i, _) => i < |s.calls| && s.calls[i].stage.Replaying?
       case DoTokenAnswer(f, _, _) => f < |s.ctl.flights| && s.ctl.flights[f].phase.Pending?
       case DoClear(f) => f < |s.ctl.flights| && s.ctl.flights[f].phase.Settled?
  }

  function Apply(s: Tab, e: Event): Tab
    requires Enabled(s, e)
  {
    match e
    case DoBegin(path) => Begin(s, path)
    case DoFirstAnswer(i, status) => FirstAnswer(s, i, status)
    case DoFirstFail(i) => s.(calls := s.calls[i := s.calls[i].(stage := Threw(None))])
    case DoWake(i) => Wake(s, i)
    case DoReplayAnswer(i, status) => s.(calls := s.calls[i := Finished(s.calls[i], status)])
    case DoReplayFail(i, message) => RefreshFailed(s, i, message)
    case DoTokenAnswer(f, answer, hookId) => TokenAnswer(s, f, answer, hookId)
    case DoClear(f) => s.(ctl := Clear(s.ctl, f))
    case DoHookRefresh(realm, presented) => s.(ctl := Run(s.ctl, s.now, realm, ByHook, presented).0)
    case DoLogin(realm, tokens) => Login(s, realm, tokens)
    case DoLogout(realm) => Logout(s, realm)
    case DoTick(ms) => s.(now := s.now + ms)
  }

  /** A page load: the store comes from local storage, everything else is new. */
  function Initial(store: Store, now: nat): Tab {
    Tab(store, now, FRESH, [], {(store.access, store.refresh)})
  }

  /** The events `es`, in this order, lead from `s` to `s'`. */
  ghost predicate Leads(s: Tab, es: seq<Event>, s': Tab)
    decreases |es|
  {
    if es == [] then s' == s
    else Enabled(s, es[0]) && Leads(Apply(s, es[0]), es[1..], s')
  }

  ghost predicate Reachable(s: Tab) {
    exists store, now, es :: Leads(Initial(store, now), es, s)
  }
}
