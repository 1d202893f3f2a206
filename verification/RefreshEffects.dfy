/** What single events and whole runs of the refresh protocol do to tokens, the store and the calls. */
module RefreshEffects {
  import opened Common
  import opened RealmUrl
  import opened RefreshController
  import opened RefreshProtocol
  import opened RefreshSafety
  import opened RefreshRuns

  // ---------------------------------------------------------------- where tokens come from

  /** The pair of tokens an event brings into the tab. */
  function Brought(e: Event): set<Pair> {
    match e
    case DoLogin(_, tokens) => {(tokens.access, tokens.refresh)}
    case DoTokenAnswer(_, answer, _) => if answer.Body? then {(answer.grant.access, answer.grant.refresh)} else {}
    case _ => {}
  }

  function AllBrought(es: seq<Event>): set<Pair> {
    if es == [] then {} else Brought(es[0]) + AllBrought(es[1..])
  }

  lemma IssuedStep(s: Tab, e: Event)
    requires Enabled(s, e)
    ensures Apply(s, e).issued == s.issued + Brought(e)
  {
  }

  /** `issued` is history: what was there at first, and what logins and token answers brought since. */
  lemma {:induction false} IssuedIsHistory(s: Tab, es: seq<Event>, t: Tab)
    requires Leads(s, es, t)
    ensures t.issued == s.issued + AllBrought(es)
    decreases |es|
  {
    if es != [] {
      IssuedStep(s, es[0]);
      IssuedIsHistory(Apply(s, es[0]), es[1..], t);
    }
  }

  predicate AccessIssued(token: Option<string>, issued: set<Pair>) {
    token.None? || exists p :: p in issued && p.0 == token
  }

  predicate RefreshIssued(token: string, issued: set<Pair>) {
    exists p :: p in issued && p.1 == Some(token)
  }

  /** Every request carries no token or an access token that was issued, and calls spend issued refresh tokens. */
  ghost predicate TokensIssued(s: Tab) {
    && (forall i, n | 0 <= i < |s.calls| && 0 <= n < |s.calls[i].sends| :: AccessIssued(s.calls[i].sends[n], s.issued))
    && (forall f | 0 <= f < |s.ctl.flights| && s.ctl.flights[f].starter.ByCall? ::
          RefreshIssued(s.ctl.flights[f].presented, s.issued))
  }

  lemma MoreIssued(issued: set<Pair>, more: set<Pair>)
    ensures forall a | AccessIssued(a, issued) :: AccessIssued(a, issued + more)
    ensures forall r | RefreshIssued(r, issued) :: RefreshIssued(r, issued + more)
  {
    forall a | AccessIssued(a, issued) && a.Some?
      ensures AccessIssued(a, issued + more)
    {
      var p :| p in issued && p.0 == a;
      assert p in issued + more;
    }
    forall r | RefreshIssued(r, issued)
      ensures RefreshIssued(r, issued + more)
    {
      var p :| p in issued && p.1 == Some(r);
      assert p in issued + more;
    }
  }

  /** What one event adds to what calls have sent. */
  lemma NewSend(s: Tab, e: Event, i: nat, n: nat)
    requires Invariant(s) && Enabled(s, e) && i < |Apply(s, e).calls| && n < |Apply(s, e).calls[i].sends|
    requires i >= |s.calls| || n >= |s.calls[i].sends|
    ensures AccessIssued(Apply(s, e).calls[i].sends[n], Apply(s, e).issued)
  {
    StepTouchesOneCall(s, e, i);
    IssuedStep(s, e);
    if e.DoBegin? {
      assert Apply(s, e).calls[i].sends == [s.store.access];
      assert s.store.access.Some? ==> (s.store.access, s.store.refresh) in s.issued;
    } else {
      assert CallOk(s.ctl, s.calls[i]);
    }
  }

  lemma OldSends(s: Tab, e: Event, i: nat)
    requires Enabled(s, e) && i < |s.calls|
    ensures i < |Apply(s, e).calls| && s.calls[i].sends <= Apply(s, e).calls[i].sends
    ensures Apply(s, e).calls[i].path == s.calls[i].path
  {
  }

  lemma OldFlights(s: Tab, e: Event, f: nat)
    requires Invariant(s) && Enabled(s, e) && f < |s.ctl.flights|
    ensures f < |Apply(s, e).ctl.flights|
    ensures Apply(s, e).ctl.flights[f].starter == s.ctl.flights[f].starter
    ensures Apply(s, e).ctl.flights[f].presented == s.ctl.flights[f].presented
  {
    SoundKept(s, e);
  }

  /** A call's refresh spends the refresh token that is in the store at that moment. */
  lemma RefreshSpendsStored(s: Tab, e: Event, f: nat)
    requires Invariant(s) && Enabled(s, e) && |s.ctl.flights| <= f < |Apply(s, e).ctl.flights|
    requires Apply(s, e).ctl.flights[f].starter.ByCall?
    ensures s.store.refresh == Some(Apply(s, e).ctl.flights[f].presented)
  {
    if e.DoFirstAnswer? {
      FirstAnswerCtl(s, e.call, e.status);
      if Triggers(s, e.call, e.status) {
        RunResult(s.ctl, s.now, ExtractRealm(s.calls[e.call].path).value, ByCall(e.call), s.store.refresh.value);
      }
    } else if e.DoHookRefresh? {
      RunResult(s.ctl, s.now, e.realm, ByHook, e.presented);
    } else {
      OtherEventsKeepHistory(s, e);
    }
  }

  lemma TokensIssuedKept(s: Tab, e: Event)
    requires Invariant(s) && TokensIssued(s) && Enabled(s, e)
    ensures TokensIssued(Apply(s, e))
  {
    var t := Apply(s, e);
    IssuedStep(s, e);
    MoreIssued(s.issued, Brought(e));
    forall i, n | 0 <= i < |t.calls| && 0 <= n < |t.calls[i].sends|
      ensures AccessIssued(t.calls[i].sends[n], t.issued)
    {
      if i < |s.calls| && n < |s.calls[i].sends| {
        OldSends(s, e, i);
        assert t.calls[i].sends[n] == s.calls[i].sends[n];
      } else {
        NewSend(s, e, i, n);
      }
    }
    forall f | 0 <= f < |t.ctl.flights| && t.ctl.flights[f].starter.ByCall?
      ensures RefreshIssued(t.ctl.flights[f].presented, t.issued)
    {
      if f < |s.ctl.flights| {
        OldFlights(s, e, f);
      } else {
        RefreshSpendsStored(s, e, f);
        assert (s.store.access, s.store.refresh) in s.issued;
      }
    }
  }

  lemma {:induction false} RunKeepsTokensIssued(s: Tab, es: seq<Event>, t: Tab)
    requires Invariant(s) && TokensIssued(s) && Leads(s, es, t)
    ensures TokensIssued(t)
    decreases |es|
  {
    if es != [] {
      InvariantKept(s, es[0]);
      TokensIssuedKept(s, es[0]);
      RunKeepsTokensIssued(Apply(s, es[0]), es[1..], t);
    }
  }

  /** In every reachable state, whatever a call has sent or spent was issued by a login, an answer or the page load. */
  lemma OnlyIssuedTokens(s: Tab)
    requires Reachable(s)
    ensures TokensIssued(s)
  {
    var store, now, es :| Leads(Initial(store, now), es, s);
    RunKeepsTokensIssued(Initial(store, now), es, s);
  }

  lemma {:induction false} SendsAreHistory(s: Tab, es: seq<Event>, t: Tab, i: nat)
    requires Leads(s, es, t) && i < |s.calls|
    ensures i < |t.calls| && s.calls[i].sends <= t.calls[i].sends && t.calls[i].path == s.calls[i].path
    decreases |es|
  {
    if es != [] {
      OldSends(s, es[0], i);
      SendsAreHistory(Apply(s, es[0]), es[1..], t, i);
    }
  }

  /** A call's own request carries the access token that was stored when the call was made. */
  lemma FirstSend(s: Tab, path: string, es: seq<Event>, t: Tab)
    requires Leads(s, [DoBegin(path)] + es, t)
    ensures |s.calls| < |t.calls| && t.calls[|s.calls|].path == path
    ensures |t.calls[|s.calls|].sends| > 0 && t.calls[|s.calls|].sends[0] == s.store.access
  {
    assert ([DoBegin(path)] + es)[1..] == es;
    SendsAreHistory(Apply(s, DoBegin(path)), es, t, |s.calls|);
  }

  // ---------------------------------------------------------------- what calls write

  /** A call's write is what the store then holds, and the store changes by a call's event only as the call records. */
  lemma WritesMatchStore(s: Tab, e: Event, i: nat)
    requires Enabled(s, e) && i < |s.calls|
    ensures
      var t := Apply(s, e);
      || t.calls[i].writes == s.calls[i].writes
      || (t.calls[i].writes == s.calls[i].writes + [t.store])
    ensures
      var t := Apply(s, e);
      !e.DoLogin? && !e.DoLogout? && !e.DoTokenAnswer? && t.store != s.store ==>
        exists j :: 0 <= j < |s.calls| && t.calls[j].writes == s.calls[j].writes + [t.store]
  {
    if e.DoWake? || e.DoReplayFail? {
      var t := Apply(s, e);
      assert t.store != s.store ==> t.calls[e.call].writes == s.calls[e.call].writes + [t.store];
    }
  }

  /** An id token leaves the store only when the store is emptied, or a login or a hook's answer replaces it. */
  lemma IdTokenLost(s: Tab, e: Event)
    requires Enabled(s, e) && s.store.id.Some? && Apply(s, e).store.id.None?
    ensures
      || Apply(s, e).store == SIGNED_OUT
      || (e.DoLogin? && e.tokens.id.None?)
      || (e.DoTokenAnswer? && s.ctl.flights[e.flight].starter.ByHook? && e.answer.Body?
          && e.answer.grant.id.None? && e.hookId.None?)
  {
  }

  /** A new id token is one that the login, or the answer the event stores, brought along. */
  lemma IdTokenGained(s: Tab, e: Event)
    requires Enabled(s, e) && Apply(s, e).store.id.Some? && Apply(s, e).store.id != s.store.id
    ensures
      var id := Apply(s, e).store.id;
      || (e.DoLogin? && id == e.tokens.id)
      || (e.DoTokenAnswer? && e.answer.Body?
          && id == (if e.answer.grant.id.Some? then e.answer.grant.id else e.hookId))
      || (e.DoWake? && s.calls[e.call].stage.Waiting?
          && s.ctl.flights[s.calls[e.call].stage.flight].phase.answer.Body?
          && id == s.ctl.flights[s.calls[e.call].stage.flight].phase.answer.grant.id)
  {
  }

  /** An answer that has an id token, stored by the hook or by a call that awaited it, puts it into the store. */
  lemma IdTokenStored(s: Tab, e: Event, g: Grant)
    requires Enabled(s, e) && g.id.Some?
    requires
      || (e.DoTokenAnswer? && s.ctl.flights[e.flight].starter.ByHook? && e.answer == Body(g))
      || (e.DoWake? && s.calls[e.call].stage.Waiting?
          && s.ctl.flights[s.calls[e.call].stage.flight].starter.ByCall?
          && s.ctl.flights[s.calls[e.call].stage.flight].phase.answer == Body(g))
    ensures Apply(s, e).store == Store(g.access, g.refresh, g.id)
  {
  }

  // ---------------------------------------------------------------- logins and logouts

  /** No refresh under way is the one a 401 of this realm would join. */
  ghost predicate NothingToJoin(c: Controller, realm: string) {
    forall f :: !Current(c, realm, f)
  }

  /** A logout empties the store, a login fills it, and after either no 401 of the realm joins an older refresh. */
  lemma SessionsStartAfresh(s: Tab, realm: string, tokens: Store)
    requires Indexed(s.ctl)
    ensures
      var out, in_ := Apply(s, DoLogout(realm)), Apply(s, DoLogin(realm, tokens));
      && out.store == SIGNED_OUT && in_.store == tokens
      && NothingToJoin(out.ctl, realm) && NothingToJoin(in_.ctl, realm)
  {
  }

  /** Nor do they after the hook has stored the tokens of its own refresh. */
  lemma HookAnswerStartsAfresh(s: Tab, f: nat, g: Grant, hookId: Option<string>)
    requires Enabled(s, DoTokenAnswer(f, Body(g), hookId)) && s.ctl.flights[f].starter.ByHook?
    ensures
      var t := Apply(s, DoTokenAnswer(f, Body(g), hookId));
      && t.store.access == g.access && t.store.refresh == g.refresh
      && NothingToJoin(t.ctl, RealmOf(s.ctl, f))
  {
  }

  // ---------------------------------------------------------------- how calls end

  predicate Over(c: Call) {
    c.stage.Returned? || c.stage.Threw?
  }

  /** The last answer decides: an ok status is returned, any other is thrown. */
  lemma LastAnswerDecides(s: Tab, e: Event)
    requires Enabled(s, e) && (e.DoReplayAnswer? || (e.DoFirstAnswer? && !Triggers(s, e.call, e.status)))
    ensures
      var stage := Apply(s, e).calls[e.call].stage;
      if e.status / 100 == 2 then stage == Returned(e.status) else stage == Threw(Some(e.status))
  {
  }

  /** A call whose own request fails throws; a replay that fails throws the first answer's 401. */
  lemma NetworkErrorsThrow(s: Tab, i: nat, message: string)
    ensures Enabled(s, DoFirstFail(i)) ==> Apply(s, DoFirstFail(i)).calls[i].stage == Threw(None)
    ensures Enabled(s, DoReplayFail(i, message)) ==>
              Apply(s, DoReplayFail(i, message)).calls[i].stage == Threw(Some(401))
  {
  }

  lemma RunAwaitsCurrent(c: Controller, now: nat, realm: string, starter: Starter, presented: string)
    requires Tabled(c) && Pointing(c)
    ensures
      var (c', flight) := Run(c, now, realm, starter, presented);
      flight.Some? ==> Current(c', realm, flight.value)
  {
    WithRecordFacts(c, realm);
  }

  /** A 401 that finds everything it needs makes the call wait for a refresh of its realm, unless that is refused. */
  lemma TriggeredCallsWait(s: Tab, i: nat)
    requires Invariant(s) && Enabled(s, DoFirstAnswer(i, 401)) && Triggers(s, i, 401)
    ensures
      var t := Apply(s, DoFirstAnswer(i, 401));
      || (t.calls[i].stage.Waiting?
          && Current(t.ctl, ExtractRealm(s.calls[i].path).value, t.calls[i].stage.flight))
      || (t.calls[i].stage.Refused? && t.ctl.flights == s.ctl.flights)
  {
    var realm := ExtractRealm(s.calls[i].path).value;
    RunResult(s.ctl, s.now, realm, ByCall(i), s.store.refresh.value);
    RunAwaitsCurrent(s.ctl, s.now, realm, ByCall(i), s.store.refresh.value);
  }

  /** A waiting call goes on only after the controller's finally clause, when its record is free again. */
  lemma WakesAfterFinally(s: Tab, i: nat)
    requires Invariant(s) && Enabled(s, DoWake(i)) && s.calls[i].stage.Waiting?
    ensures forall k | 0 <= k < |s.ctl.records| :: s.ctl.records[k].inFlight != Some(s.calls[i].stage.flight)
  {
  }

  /** The next thing that can happen to a call; 0 and no text stand for any status and any message. */
  function NextOf(s: Tab, i: nat): Event
    requires i < |s.calls| && !Over(s.calls[i])
  {
    match s.calls[i].stage
    case Sent => DoFirstAnswer(i, 0)
    case Replaying => DoReplayAnswer(i, 0)
    case Refused => DoWake(i)
    case Waiting(f) =>
      if f < |s.ctl.flights| && s.ctl.flights[f].phase.Pending? then DoTokenAnswer(f, NullBody, None)
      else if f < |s.ctl.flights| && s.ctl.flights[f].phase.Settled? then DoClear(f)
      else DoWake(i)
  }

  /** No call is ever stuck: it, or the refresh it waits for, can go on. */
  lemma NoCallIsStuck(s: Tab, i: nat)
    requires Reachable(s) && i < |s.calls| && !Over(s.calls[i])
    ensures Enabled(s, NextOf(s, i))
  {
    ReachableInvariant(s);
    assert CallOk(s.ctl, s.calls[i]);
  }

  /** A 401 throws at once when there is no refresh token to spend; an empty string is none. */
  lemma NothingToSpend(s: Tab, i: nat)
    requires Enabled(s, DoFirstAnswer(i, 401)) && (s.store.refresh == None || s.store.refresh == Some(""))
    ensures
      var t := Apply(s, DoFirstAnswer(i, 401));
      t.calls[i].stage == Threw(Some(401)) && t.ctl == s.ctl && t.store == s.store
  {
  }

  // ---------------------------------------------------------------- errors and the back-off

  /** A refresh counts as failed on an error, and on a JSON null if the hook started it, whose own code then throws. */
  lemma FailedIff(f: Flight)
    requires !f.phase.Pending?
    ensures Failed(f) <==> f.phase.answer.Error? || (f.phase.answer.NullBody? && f.starter.ByHook?)
  {
  }

  /** What the catch clause of a call sees whose refresh brought it no tokens. */
  lemma CaughtError(s: Tab, i: nat)
    requires Reachable(s) && i < |s.calls| && s.calls[i].caught.Some?
    requires |s.calls[i].sends| == 1 && s.calls[i].waited.Some?
    ensures
      var f := s.calls[i].waited.value;
      && f < |s.ctl.flights| && !s.ctl.flights[f].phase.Pending?
      && s.calls[i].caught == Some(match s.ctl.flights[f].phase.answer
                                   case Error(m) => m
                                   case _ => TYPE_ERROR)
  {
    ReachableInvariant(s);
    assert CallOk(s.ctl, s.calls[i]);
  }

  /** Flight `f` of record `k` failed by now, with nothing after it that has been answered, and the back-off is its. */
  ghost predicate Earns(c: Controller, now: nat, k: nat, f: nat)
    requires k < |c.records|
  {
    && f < |c.flights| && c.flights[f].record == k && Failed(c.flights[f]) && c.flights[f].phase.at <= now
    && c.records[k].blockedUntil == c.flights[f].phase.at + 15_000
    && forall g | f < g < |c.flights| && c.flights[g].record == k :: c.flights[g].phase.Pending?
  }

  /** Every back-off is that of the last refresh of its record that was answered, which failed. */
  ghost predicate Earned(c: Controller, now: nat) {
    && Indexed(c)
    && forall k | 0 <= k < |c.records| && c.records[k].blockedUntil != 0 :: exists f :: Earns(c, now, k, f)
  }

  lemma WithRecordEarned(c: Controller, now: nat, realm: string)
    requires Earned(c, now)
    ensures Earned(WithRecord(c, realm), now)
  {
    var c' := WithRecord(c, realm);
    forall k | 0 <= k < |c'.records| && c'.records[k].blockedUntil != 0
      ensures exists f :: Earns(c', now, k, f)
    {
      var f :| Earns(c, now, k, f);
      assert Earns(c', now, k, f);
    }
  }

  lemma LaunchEarned(c: Controller, now: nat, k: nat, starter: Starter, presented: string)
    requires Earned(c, now) && k < |c.records|
    ensures Earned(Launch(c, now, k, starter, presented), now)
  {
    var c' := Launch(c, now, k, starter, presented);
    forall j | 0 <= j < |c'.records| && c'.records[j].blockedUntil != 0
      ensures exists f :: Earns(c', now, j, f)
    {
      var f :| Earns(c, now, j, f);
      assert Earns(c', now, j, f);
    }
  }

  lemma RunEarned(c: Controller, now: nat, realm: string, starter: Starter, presented: string)
    requires Earned(c, now)
    ensures Earned(Run(c, now, realm, starter, presented).0, now)
  {
    var c1 := WithRecord(c, realm);
    WithRecordEarned(c, now, realm);
    var k := c1.table[realm];
    if c1.records[k].inFlight.None? && c1.records[k].blockedUntil <= now {
      LaunchEarned(c1, now, k, starter, presented);
    }
  }

  lemma ResetEarned(c: Controller, now: nat, realm: string)
    requires Earned(c, now)
    ensures Earned(Reset(c, realm), now)
  {
    var c' := Reset(c, realm);
    forall k | 0 <= k < |c'.records| && c'.records[k].blockedUntil != 0
      ensures exists f :: Earns(c', now, k, f)
    {
      var f :| Earns(c, now, k, f);
      assert Earns(c', now, k, f);
    }
  }

  lemma SettleEarned(c: Controller, now: nat, f: nat, answer: Answer)
    requires Earned(c, now) && Pointing(c) && Spaced(c, now) && f < |c.flights| && c.flights[f].phase.Pending?
    ensures Earned(Settle(c, now, f, answer), now)
  {
    var c' := Settle(c, now, f, answer);
    var k := c.flights[f].record;
    forall j | 0 <= j < |c'.records| && c'.records[j].blockedUntil != 0
      ensures exists g :: Earns(c', now, j, g)
    {
      if j == k {
        assert forall g | f < g < |c.flights| :: c.flights[g].record != k;
        assert Earns(c', now, k, f);
      } else {
        var g :| Earns(c, now, j, g);
        assert Earns(c', now, j, g);
      }
    }
  }

  lemma ClearEarned(c: Controller, now: nat, f: nat)
    requires Earned(c, now) && f < |c.flights| && c.flights[f].phase.Settled?
    ensures Earned(Clear(c, f), now)
  {
    var c' := Clear(c, f);
    forall j | 0 <= j < |c'.records| && c'.records[j].blockedUntil != 0
      ensures exists g :: Earns(c', now, j, g)
    {
      var g: nat :| Earns(c, now, j, g);
      assert g != f ==> c'.flights[g] == c.flights[g];
      assert Earns(c', now, j, g);
    }
  }

  lemma LaterEarned(c: Controller, now: nat, ms: nat)
    requires Earned(c, now)
    ensures Earned(c, now + ms)
  {
    var later := now + ms;
    forall k | 0 <= k < |c.records| && c.records[k].blockedUntil != 0
      ensures exists f :: Earns(c, later, k, f)
    {
      var f: nat :| Earns(c, now, k, f);
      assert Earns(c, later, k, f);
    }
  }

  lemma EarnedKept(s: Tab, e: Event)
    requires Invariant(s) && Earned(s.ctl, s.now) && Enabled(s, e)
    ensures Earned(Apply(s, e).ctl, Apply(s, e).now)
  {
    if !TouchesController(e) {
      OthersKeepController(s, e);
    } else {
      match e {
        case DoFirstAnswer(i, status) =>
          FirstAnswerCtl(s, i, status);
          if Triggers(s, i, status) {
            RunEarned(s.ctl, s.now, ExtractRealm(s.calls[i].path).value, ByCall(i), s.store.refresh.value);
          }
        case DoTokenAnswer(f, answer, hookId) =>
          if s.ctl.flights[f].starter.ByHook? && answer.Body? {
            ResetEarned(s.ctl, s.now, RealmOf(s.ctl, f));
            ResetKept(s.ctl, s.now, RealmOf(s.ctl, f));
            SettleEarned(Reset(s.ctl, RealmOf(s.ctl, f)), s.now, f, answer);
          } else {
            SettleEarned(s.ctl, s.now, f, answer);
          }
        case DoClear(f) => ClearEarned(s.ctl, s.now, f);
        case DoHookRefresh(realm, presented) => RunEarned(s.ctl, s.now, realm, ByHook, presented);
        case DoLogin(realm, _) => ResetEarned(s.ctl, s.now, realm);
        case DoLogout(realm) => ResetEarned(s.ctl, s.now, realm);
        case DoTick(ms) => LaterEarned(s.ctl, s.now, ms);
      }
    }
  }

  lemma {:induction false} RunKeepsEarned(s: Tab, es: seq<Event>, t: Tab)
    requires Invariant(s) && Earned(s.ctl, s.now) && Leads(s, es, t)
    ensures Earned(t.ctl, t.now)
    decreases |es|
  {
    if es != [] {
      InvariantKept(s, es[0]);
      EarnedKept(s, es[0]);
      RunKeepsEarned(Apply(s, es[0]), es[1..], t);
    }
  }

  lemma ReachableEarned(s: Tab)
    requires Reachable(s)
    ensures Earned(s.ctl, s.now)
  {
    var store, now, es :| Leads(Initial(store, now), es, s);
    RunKeepsEarned(Initial(store, now), es, s);
  }

  lemma RefusedInBackOff(s: Tab, i: nat)
    requires Sound(s.ctl, s.now) && Enabled(s, DoFirstAnswer(i, 401)) && Triggers(s, i, 401)
    requires Apply(s, DoFirstAnswer(i, 401)).calls[i].stage.Refused?
    ensures
      var realm := ExtractRealm(s.calls[i].path).value;
      realm in s.ctl.table && s.now < s.ctl.records[s.ctl.table[realm]].blockedUntil
  {
    RunResult(s.ctl, s.now, ExtractRealm(s.calls[i].path).value, ByCall(i), s.store.refresh.value);
  }

  /**
   A call is refused only within 15 seconds of a failed refresh of its realm, the last one answered since the realm's
   last reset: a refresh that succeeds ends the back-off, and a reset does.
   */
  lemma RefusedOnlyAfterFailure(s: Tab, i: nat)
    requires Reachable(s) && Enabled(s, DoFirstAnswer(i, 401)) && Triggers(s, i, 401)
    requires Apply(s, DoFirstAnswer(i, 401)).calls[i].stage.Refused?
    ensures
      var realm := ExtractRealm(s.calls[i].path).value;
      exists f: nat ::
        && f < |s.ctl.flights| && Failed(s.ctl.flights[f]) && s.now < s.ctl.flights[f].phase.at + 15_000
        && realm in s.ctl.table && s.ctl.flights[f].record == s.ctl.table[realm]
        && forall g | f < g < |s.ctl.flights| && s.ctl.flights[g].record == s.ctl.flights[f].record ::
             s.ctl.flights[g].phase.Pending?
  {
    ReachableInvariant(s);
    ReachableEarned(s);
    RefusedInBackOff(s, i);
    var f: nat :| Earns(s.ctl, s.now, s.ctl.table[ExtractRealm(s.calls[i].path).value], f);
  }

  lemma BackOffIsShort(c: Controller, now: nat)
    requires Earned(c, now)
    ensures forall k | 0 <= k < |c.records| :: c.records[k].blockedUntil <= now + 15_000
  {
    forall k | 0 <= k < |c.records| && c.records[k].blockedUntil != 0
      ensures c.records[k].blockedUntil <= now + 15_000
    {
      var f: nat :| Earns(c, now, k, f);
    }
  }

  /** Time goes on, and 15 seconds later no back-off is left. */
  lemma BackOffEnds(s: Tab, i: nat, ms: nat)
    requires Reachable(s) && ms >= 15_000
    requires Enabled(s, DoFirstAnswer(i, 401)) && Triggers(s, i, 401)
    ensures
      var t := Apply(s, DoTick(ms));
      && t.now == s.now + ms && Enabled(t, DoFirstAnswer(i, 401))
      && Apply(t, DoFirstAnswer(i, 401)).calls[i].stage.Waiting?
  {
    ReachableInvariant(s);
    ReachableEarned(s);
    var t := Apply(s, DoTick(ms));
    InvariantKept(s, DoTick(ms));
    BackOffIsShort(s.ctl, s.now);
    TriggeredCallsWait(t, i);
    if Apply(t, DoFirstAnswer(i, 401)).calls[i].stage.Refused? {
      RefusedInBackOff(t, i);
    }
  }
}
