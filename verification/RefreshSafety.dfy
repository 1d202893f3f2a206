/** What holds in every state the refresh protocol can reach, however its events interleave. */
module RefreshSafety {
  import opened Common
  import opened RealmUrl
  import opened RefreshController
  import opened RefreshProtocol

  // ---------------------------------------------------------------- the controller

  /** A 401 that finds everything it needs for a refresh. */
  predicate Triggers(s: Tab, i: nat, status: int)
    requires i < |s.calls|
  {
    status == 401 && !IsTokenEndpoint(s.calls[i].path) && Truthy(s.store.refresh) && ExtractRealm(s.calls[i].path).Some?
  }

  lemma FirstAnswerCtl(s: Tab, i: nat, status: int)
    requires Indexed(s.ctl) && i < |s.calls|
    ensures FirstAnswer(s, i, status).ctl ==
            if Triggers(s, i, status)
            then Run(s.ctl, s.now, ExtractRealm(s.calls[i].path).value, ByCall(i), s.store.refresh.value).0
            else s.ctl
  {
  }

  lemma WakeCtl(s: Tab, i: nat)
    requires i < |s.calls|
    requires s.calls[i].stage.Refused? || (s.calls[i].stage.Waiting? && CanWake(s.ctl, s.calls[i].stage.flight))
    ensures Wake(s, i).ctl == s.ctl && Wake(s, i).now == s.now
  {
  }

  lemma RunKept(c: Controller, now: nat, realm: string, starter: Starter, presented: string)
    requires Sound(c, now)
    ensures Sound(Run(c, now, realm, starter, presented).0, now)
    ensures Extends(c, Run(c, now, realm, starter, presented).0)
  {
    RunSound(c, now, realm, starter, presented);
    RunResult(c, now, realm, starter, presented);
  }

  lemma ResetKept(c: Controller, now: nat, realm: string)
    requires Sound(c, now)
    ensures Sound(Reset(c, realm), now) && Extends(c, Reset(c, realm))
  {
    ResetSound(c, now, realm);
    ResetExtends(c, realm);
  }

  lemma SettleKept(c: Controller, now: nat, f: nat, answer: Answer)
    requires Sound(c, now) && f < |c.flights| && c.flights[f].phase.Pending?
    ensures Sound(Settle(c, now, f, answer), now) && Extends(c, Settle(c, now, f, answer))
  {
    SettleSound(c, now, f, answer);
    SettleExtends(c, now, f, answer);
  }

  lemma ExtendsTransitive(c0: Controller, c1: Controller, c2: Controller)
    requires Extends(c0, c1) && Extends(c1, c2)
    ensures Extends(c0, c2)
  {
  }

  lemma TokenAnswerKept(s: Tab, f: nat, answer: Answer, hookId: Option<string>)
    requires Sound(s.ctl, s.now) && f < |s.ctl.flights| && s.ctl.flights[f].phase.Pending?
    ensures Sound(TokenAnswer(s, f, answer, hookId).ctl, s.now) && Extends(s.ctl, TokenAnswer(s, f, answer, hookId).ctl)
  {
    if s.ctl.flights[f].starter.ByHook? && answer.Body? {
      var c := Reset(s.ctl, RealmOf(s.ctl, f));
      ResetKept(s.ctl, s.now, RealmOf(s.ctl, f));
      SettleKept(c, s.now, f, answer);
      ExtendsTransitive(s.ctl, c, Settle(c, s.now, f, answer));
    } else {
      SettleKept(s.ctl, s.now, f, answer);
    }
  }

  lemma TimePasses(c: Controller, now: nat, ms: nat)
    requires Sound(c, now)
    ensures Sound(c, now + ms)
  {
  }

  predicate TouchesController(e: Event) {
    e.DoFirstAnswer? || e.DoTokenAnswer? || e.DoClear? || e.DoHookRefresh? || e.DoLogin? || e.DoLogout? || e.DoTick?
  }

  lemma OthersKeepController(s: Tab, e: Event)
    requires Enabled(s, e) && !TouchesController(e)
    ensures Apply(s, e).ctl == s.ctl && Apply(s, e).now == s.now
  {
    if e.DoWake? {
      WakeCtl(s, e.call);
    }
  }

  lemma ExtendsSelf(c: Controller)
    requires Indexed(c)
    ensures Extends(c, c)
  {
  }

  lemma FirstAnswerKept(s: Tab, i: nat, status: int)
    requires Sound(s.ctl, s.now) && i < |s.calls|
    ensures Sound(FirstAnswer(s, i, status).ctl, s.now) && Extends(s.ctl, FirstAnswer(s, i, status).ctl)
  {
    FirstAnswerCtl(s, i, status);
    if Triggers(s, i, status) {
      RunKept(s.ctl, s.now, ExtractRealm(s.calls[i].path).value, ByCall(i), s.store.refresh.value);
    } else {
      ExtendsSelf(s.ctl);
    }
  }

  lemma SoundKept(s: Tab, e: Event)
    requires Sound(s.ctl, s.now) && Enabled(s, e)
    ensures Sound(Apply(s, e).ctl, Apply(s, e).now)
    ensures Extends(s.ctl, Apply(s, e).ctl)
  {
    if !TouchesController(e) {
      OthersKeepController(s, e);
      ExtendsSelf(s.ctl);
    } else {
      match e {
        case DoFirstAnswer(i, status) => FirstAnswerKept(s, i, status);
        case DoTokenAnswer(f, answer, hookId) => TokenAnswerKept(s, f, answer, hookId);
        case DoClear(f) =>
          ClearSound(s.ctl, s.now, f);
          ClearExtends(s.ctl, f);
        case DoHookRefresh(realm, presented) => RunKept(s.ctl, s.now, realm, ByHook, presented);
        case DoLogin(realm, _) => ResetKept(s.ctl, s.now, realm);
        case DoLogout(realm) => ResetKept(s.ctl, s.now, realm);
        case DoTick(ms) =>
          TimePasses(s.ctl, s.now, ms);
          ExtendsSelf(s.ctl);
      }
    }
  }

  // ---------------------------------------------------------------- the store's invariant

  type Pair = (Option<string>, Option<string>)

  /** Every token answer's pair is recorded. */
  ghost predicate AnswersIssued(c: Controller, issued: set<Pair>) {
    forall f | 0 <= f < |c.flights| && !c.flights[f].phase.Pending? && c.flights[f].phase.answer.Body? ::
      (c.flights[f].phase.answer.grant.access, c.flights[f].phase.answer.grant.refresh) in issued
  }

  /** The stored access and refresh tokens were issued together, or the store is empty. */
  ghost predicate Paired(s: Tab) {
    && ((s.store.access, s.store.refresh) in s.issued || s.store == SIGNED_OUT)
    && AnswersIssued(s.ctl, s.issued)
  }

  lemma RunAnswersIssued(c: Controller, now: nat, realm: string, starter: Starter, presented: string, issued: set<Pair>)
    requires Sound(c, now) && AnswersIssued(c, issued)
    ensures AnswersIssued(Run(c, now, realm, starter, presented).0, issued)
  {
    RunResult(c, now, realm, starter, presented);
  }

  lemma TokenAnswerPaired(s: Tab, f: nat, answer: Answer, hookId: Option<string>)
    requires Paired(s) && f < |s.ctl.flights| && s.ctl.flights[f].record < |s.ctl.records|
    ensures Paired(TokenAnswer(s, f, answer, hookId))
  {
  }

  lemma WakePaired(s: Tab, i: nat)
    requires Paired(s) && i < |s.calls|
    requires s.calls[i].stage.Refused? || (s.calls[i].stage.Waiting? && CanWake(s.ctl, s.calls[i].stage.flight))
    ensures Paired(Wake(s, i))
  {
  }

  lemma PairedKept(s: Tab, e: Event)
    requires Sound(s.ctl, s.now) && Paired(s) && Enabled(s, e)
    ensures Paired(Apply(s, e))
  {
    match e {
      case DoFirstAnswer(i, status) =>
        FirstAnswerCtl(s, i, status);
        if Triggers(s, i, status) {
          var realm := ExtractRealm(s.calls[i].path).value;
          RunAnswersIssued(s.ctl, s.now, realm, ByCall(i), s.store.refresh.value, s.issued);
        }
      case DoWake(i) => WakePaired(s, i);
      case DoTokenAnswer(f, answer, hookId) => TokenAnswerPaired(s, f, answer, hookId);
      case DoHookRefresh(realm, presented) => RunAnswersIssued(s.ctl, s.now, realm, ByHook, presented, s.issued);
      case _ =>
    }
  }

  // ---------------------------------------------------------------- the calls' invariant

  /** A refresh was due: a 401 on another URL than the token endpoint, a refresh token and a realm at hand. */
  predicate Due(c: Call) {
    c.answered == Some(401) && !IsTokenEndpoint(c.path) && Truthy(c.held) && ExtractRealm(c.path).Some?
  }

  /** The call awaits or awaited flight `f`, a refresh of its own realm. */
  predicate Awaits(ctl: Controller, c: Call, f: nat) {
    && Due(c) && c.waited == Some(f)
    && f < |ctl.flights| && ctl.flights[f].record < |ctl.records|
    && ExtractRealm(c.path) == Some(RealmOf(ctl, f))
  }

  /** How the flight the call awaited ended, once it is over. */
  function Ending(ctl: Controller, c: Call): Option<Outcome> {
    if c.waited.Some? && CanWake(ctl, c.waited.value)
    then Some(OutcomeOf(ctl.flights[c.waited.value].starter, ctl.flights[c.waited.value].phase.answer))
    else None
  }

  /** Its flight ended with tokens, which it stored; its replay carries exactly that access token. */
  predicate Replayed(ctl: Controller, c: Call) {
    && c.waited.Some? && Awaits(ctl, c, c.waited.value)
    && Ending(ctl, c).Some? && Ending(ctl, c).value.Tokens?
    && |c.sends| == 2 && |c.writes| >= 1
    && var g := Ending(ctl, c).value.grant;
       c.sends[1] == g.access && c.writes[0].access == g.access && c.writes[0].refresh == g.refresh
  }

  /** Its flight ended without tokens. */
  predicate Unrefreshed(ctl: Controller, c: Call) {
    && c.waited.Some? && Awaits(ctl, c, c.waited.value)
    && Ending(ctl, c).Some? && !Ending(ctl, c).value.Tokens?
    && |c.sends| == 1
    && c.caught == Some(if Ending(ctl, c).value.Thrown? then Ending(ctl, c).value.message else TYPE_ERROR)
  }

  /** The controller refused it. */
  predicate Rebuffed(c: Call) {
    Due(c) && c.waited.None? && |c.sends| == 1
  }

  /** It never tried to refresh. */
  predicate Plain(c: Call) {
    |c.sends| == 1 && c.writes == [] && c.held.None? && c.waited.None? && c.caught.None?
  }

  /**
   A call whose catch clause saw `c.caught` wrote the tokens it got, if any, and then nulls unless the error was
   BLOCKED.
   */
  predicate WroteOnCatch(c: Call) {
    && c.caught.Some?
    && |c.writes| == |c.sends| - 1 + (if c.caught == Some(BLOCKED) then 0 else 1)
    && (c.caught != Some(BLOCKED) ==> |c.writes| > 0 && c.writes[|c.writes| - 1] == SIGNED_OUT)
  }

  predicate CallOk(ctl: Controller, c: Call) {
    match c.stage
    case Sent => Plain(c) && c.answered.None?
    case Waiting(f) => Awaits(ctl, c, f) && |c.sends| == 1 && c.writes == [] && c.caught.None?
    case Refused => Rebuffed(c) && c.writes == [] && c.caught.None?
    case Replaying => Replayed(ctl, c) && |c.writes| == 1 && c.caught.None?
    case Returned(status) =>
      && Ok(status) && c.caught.None?
      && ((Plain(c) && c.answered == Some(status)) || (Replayed(ctl, c) && |c.writes| == 1))
    case Threw(error) =>
      || (Plain(c) && c.answered == error && (error.Some? ==> !Ok(error.value)))
      || (Replayed(ctl, c) && |c.writes| == 1 && c.caught.None? && error.Some? && !Ok(error.value))
      || (WroteOnCatch(c) && error == Some(401)
          && (Replayed(ctl, c) || Unrefreshed(ctl, c) || (Rebuffed(c) && c.caught == Some(BLOCKED))))
  }

  /** A flight a call started presents the refresh token that call held, and that call awaits it. */
  ghost predicate Started(s: Tab) {
    && Indexed(s.ctl)
    && (forall f | 0 <= f < |s.ctl.flights| && s.ctl.flights[f].starter.ByCall? ::
          var i := s.ctl.flights[f].starter.call;
          i < |s.calls| && s.calls[i].waited == Some(f) && s.calls[i].held == Some(s.ctl.flights[f].presented))
  }

  ghost predicate CallsOk(s: Tab) {
    forall i | 0 <= i < |s.calls| :: CallOk(s.ctl, s.calls[i])
  }

  lemma CallOkFrame(ctl: Controller, ctl': Controller, c: Call)
    requires Extends(ctl, ctl') && CallOk(ctl, c)
    ensures CallOk(ctl', c)
  {
  }

  lemma FirstAnswerOwn(s: Tab, i: nat, status: int)
    requires Sound(s.ctl, s.now) && i < |s.calls| && s.calls[i].stage.Sent? && CallOk(s.ctl, s.calls[i])
    ensures CallOk(FirstAnswer(s, i, status).ctl, FirstAnswer(s, i, status).calls[i])
  {
    if Triggers(s, i, status) {
      RunResult(s.ctl, s.now, ExtractRealm(s.calls[i].path).value, ByCall(i), s.store.refresh.value);
    }
  }

  lemma ReplayFailOwn(s: Tab, i: nat, message: string)
    requires i < |s.calls| && s.calls[i].stage.Replaying? && CallOk(s.ctl, s.calls[i])
    ensures CallOk(RefreshFailed(s, i, message).ctl, RefreshFailed(s, i, message).calls[i])
  {
  }

  lemma ReplayAnswerOwn(ctl: Controller, c: Call, status: int)
    requires c.stage.Replaying? && CallOk(ctl, c)
    ensures CallOk(ctl, Finished(c, status))
  {
  }

  lemma WakeOwn(s: Tab, i: nat)
    requires i < |s.calls| && CallOk(s.ctl, s.calls[i])
    requires s.calls[i].stage.Refused? || (s.calls[i].stage.Waiting? && CanWake(s.ctl, s.calls[i].stage.flight))
    ensures CallOk(Wake(s, i).ctl, Wake(s, i).calls[i])
  {
  }

  /** Every event but a new call leaves all calls as they are, except perhaps its own. */
  lemma StepTouchesOneCall(s: Tab, e: Event, i: nat)
    requires Enabled(s, e) && i < |Apply(s, e).calls| && (i >= |s.calls| || Apply(s, e).calls[i] != s.calls[i])
    ensures e.DoBegin? ==> i == |s.calls|
    ensures !e.DoBegin? ==>
              && i < |s.calls|
              && (e.DoFirstAnswer? || e.DoFirstFail? || e.DoWake? || e.DoReplayAnswer? || e.DoReplayFail?)
              && e.call == i
  {
  }

  lemma OwnStep(s: Tab, e: Event, i: nat)
    requires Sound(s.ctl, s.now) && CallsOk(s) && Enabled(s, e)
    requires i < |Apply(s, e).calls| && (i >= |s.calls| || Apply(s, e).calls[i] != s.calls[i])
    ensures CallOk(Apply(s, e).ctl, Apply(s, e).calls[i])
  {
    StepTouchesOneCall(s, e, i);
    if e.DoBegin? {
      assert Apply(s, e).calls[i] == Call(e.path, [s.store.access], [], None, None, None, None, Sent);
    } else {
      assert CallOk(s.ctl, s.calls[i]);
      match e {
        case DoFirstAnswer(_, status) => FirstAnswerOwn(s, i, status);
        case DoFirstFail(_) =>
        case DoWake(_) => WakeOwn(s, i);
        case DoReplayAnswer(_, status) => ReplayAnswerOwn(s.ctl, s.calls[i], status);
        case DoReplayFail(_, message) => ReplayFailOwn(s, i, message);
      }
    }
  }

  lemma CallsOkKept(s: Tab, e: Event)
    requires Sound(s.ctl, s.now) && CallsOk(s) && Enabled(s, e)
    ensures CallsOk(Apply(s, e))
  {
    SoundKept(s, e);
    var s' := Apply(s, e);
    forall i | 0 <= i < |s'.calls|
      ensures CallOk(s'.ctl, s'.calls[i])
    {
      if i < |s.calls| && s'.calls[i] == s.calls[i] {
        CallOkFrame(s.ctl, s'.ctl, s.calls[i]);
      } else {
        OwnStep(s, e, i);
      }
    }
  }

  lemma FirstAnswerStarted(s: Tab, i: nat, status: int)
    requires Sound(s.ctl, s.now) && Started(s) && i < |s.calls| && s.calls[i].waited.None?
    ensures Started(FirstAnswer(s, i, status))
  {
    if Triggers(s, i, status) {
      RunResult(s.ctl, s.now, ExtractRealm(s.calls[i].path).value, ByCall(i), s.store.refresh.value);
    }
  }

  /** An event that adds no flight and keeps what each call held and awaited. */
  lemma StartedFrame(s: Tab, s': Tab)
    requires Started(s) && Extends(s.ctl, s'.ctl) && |s'.ctl.flights| == |s.ctl.flights|
    requires |s.calls| <= |s'.calls|
    requires forall i | 0 <= i < |s.calls| ::
               s'.calls[i].waited == s.calls[i].waited && s'.calls[i].held == s.calls[i].held
    ensures Started(s')
  {
  }

  lemma HookRefreshStarted(s: Tab, realm: string, presented: string)
    requires Sound(s.ctl, s.now) && Started(s)
    ensures Started(s.(ctl := Run(s.ctl, s.now, realm, ByHook, presented).0))
  {
    RunResult(s.ctl, s.now, realm, ByHook, presented);
  }

  /** Only a first answer and the hook open flights, and only a first answer sets what a call holds and awaits. */
  lemma OtherEventsKeepHistory(s: Tab, e: Event)
    requires Enabled(s, e) && !e.DoFirstAnswer? && !e.DoHookRefresh?
    ensures |Apply(s, e).ctl.flights| == |s.ctl.flights| && |s.calls| <= |Apply(s, e).calls|
    ensures forall i | 0 <= i < |s.calls| ::
              Apply(s, e).calls[i].waited == s.calls[i].waited && Apply(s, e).calls[i].held == s.calls[i].held
  {
  }

  lemma StartedKept(s: Tab, e: Event)
    requires Sound(s.ctl, s.now) && CallsOk(s) && Started(s) && Enabled(s, e)
    ensures Started(Apply(s, e))
  {
    if e.DoFirstAnswer? {
      assert CallOk(s.ctl, s.calls[e.call]);
      FirstAnswerStarted(s, e.call, e.status);
    } else if e.DoHookRefresh? {
      HookRefreshStarted(s, e.realm, e.presented);
    } else {
      SoundKept(s, e);
      OtherEventsKeepHistory(s, e);
      StartedFrame(s, Apply(s, e));
    }
  }

  // ---------------------------------------------------------------- every reachable state

  ghost predicate Invariant(s: Tab) {
    Sound(s.ctl, s.now) && Paired(s) && CallsOk(s) && Started(s)
  }

  lemma InvariantKept(s: Tab, e: Event)
    requires Invariant(s) && Enabled(s, e)
    ensures Invariant(Apply(s, e)) && Extends(s.ctl, Apply(s, e).ctl)
  {
    SoundKept(s, e);
    PairedKept(s, e);
    CallsOkKept(s, e);
    StartedKept(s, e);
  }

  lemma {:induction false} RunKeepsInvariant(s: Tab, es: seq<Event>, s': Tab)
    requires Invariant(s) && Leads(s, es, s')
    ensures Invariant(s') && Extends(s.ctl, s'.ctl)
    decreases |es|
  {
    if es != [] {
      InvariantKept(s, es[0]);
      RunKeepsInvariant(Apply(s, es[0]), es[1..], s');
      ExtendsTransitive(s.ctl, Apply(s, es[0]).ctl, s'.ctl);
    }
  }

  lemma ReachableInvariant(s: Tab)
    requires Reachable(s)
    ensures Invariant(s)
  {
    var store, now, es :| Leads(Initial(store, now), es, s);
    RunKeepsInvariant(Initial(store, now), es, s);
  }

  // ---------------------------------------------------------------- the theorems

  /**
   In every interleaving a call sends its own request at most twice: the second time only after a 401 on
   another URL than the token endpoint, with a refresh token and a realm at hand, once a refresh of that
   realm has ended with tokens; and the replay carries exactly the access token that refresh returned.
   */
  lemma AtMostOneReplay(s: Tab, i: nat)
    requires Reachable(s) && i < |s.calls|
    ensures
      var c := s.calls[i];
      && 1 <= |c.sends| <= 2
      && (|c.sends| == 2 ==>
            && Due(c) && c.waited.Some? && Awaits(s.ctl, c, c.waited.value)
            && Ending(s.ctl, c).Some? && Ending(s.ctl, c).value.Tokens?
            && c.sends[1] == Ending(s.ctl, c).value.grant.access)
  {
    ReachableInvariant(s);
    assert CallOk(s.ctl, s.calls[i]);
  }

  /** Calls that awaited the same refresh replay with the same access token. */
  lemma SharedRefreshSharedToken(s: Tab, i: nat, j: nat)
    requires Reachable(s) && i < |s.calls| && j < |s.calls|
    requires |s.calls[i].sends| == 2 && |s.calls[j].sends| == 2 && s.calls[i].waited == s.calls[j].waited
    ensures s.calls[i].sends[1] == s.calls[j].sends[1]
  {
    AtMostOneReplay(s, i);
    AtMostOneReplay(s, j);
  }

  /** A call starts at most one refresh, and spends on it the refresh token it read. */
  lemma AtMostOneRefreshPerCall(s: Tab, i: nat, f: nat, g: nat)
    requires Reachable(s) && f < |s.ctl.flights| && g < |s.ctl.flights|
    requires s.ctl.flights[f].starter == ByCall(i) && s.ctl.flights[g].starter == ByCall(i)
    ensures f == g && i < |s.calls| && Due(s.calls[i]) && s.calls[i].held == Some(s.ctl.flights[f].presented)
  {
    ReachableInvariant(s);
    assert CallOk(s.ctl, s.calls[i]);
  }

  /** The stored access and refresh tokens are both null or were issued together, never a mix of two answers. */
  lemma StorePairing(s: Tab)
    requires Reachable(s)
    ensures s.store == SIGNED_OUT || (s.store.access, s.store.refresh) in s.issued
  {
    ReachableInvariant(s);
  }

  /**
   Whenever the refresh or the replay throws, the call ends by throwing the original 401, and the last thing
   it does to the store is to empty it; only a BLOCKED error leaves the store alone.
   */
  lemma FailurePath(s: Tab, i: nat)
    requires Reachable(s) && i < |s.calls| && s.calls[i].caught.Some?
    ensures
      s.calls[i].stage == Threw(Some(401)) && WroteOnCatch(s.calls[i])
  {
    ReachableInvariant(s);
    assert CallOk(s.ctl, s.calls[i]);
  }

  /** The refresh threw, or gave nothing to store, exactly when a finished call that needed one sent no replay. */
  lemma CaughtWithoutReplay(s: Tab, i: nat)
    requires Reachable(s) && i < |s.calls| && Due(s.calls[i])
    requires s.calls[i].stage.Returned? || s.calls[i].stage.Threw?
    ensures
      var c := s.calls[i];
      |c.sends| == 1 <==> c.caught.Some? && !(Ending(s.ctl, c).Some? && Ending(s.ctl, c).value.Tokens?)
  {
    ReachableInvariant(s);
    assert CallOk(s.ctl, s.calls[i]);
  }

  /**
   A call that awaited a refresh answered with tokens replays exactly when a fetcher call started that refresh.
   The hook's refresh fulfils with nothing, so a call that joined it throws and empties the store
   the hook has just filled.
   */
  lemma ReplayIffStartedByCall(s: Tab, i: nat)
    requires Reachable(s) && i < |s.calls| && !s.calls[i].stage.Waiting?
    requires s.calls[i].waited.Some? && CanWake(s.ctl, s.calls[i].waited.value)
    requires s.ctl.flights[s.calls[i].waited.value].phase.answer.Body?
    ensures
      var c := s.calls[i];
      var starter := s.ctl.flights[c.waited.value].starter;
      && (|c.sends| == 2 <==> starter.ByCall?)
      && (starter.ByHook? ==> c.stage == Threw(Some(401)) && c.writes == [SIGNED_OUT])
  {
    ReachableInvariant(s);
    assert CallOk(s.ctl, s.calls[i]);
  }
}
