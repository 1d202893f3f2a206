/** Properties of whole runs of the refresh protocol: bursts of 401s, resets, and logging out. */
module RefreshRuns {
  import opened Common
  import opened RealmUrl
  import opened RefreshController
  import opened RefreshProtocol
  import opened RefreshSafety

  // ---------------------------------------------------------------- one refresh for a burst of 401s

  /** Flight `f` is the one a 401 of this realm would join. */
  predicate Current(c: Controller, realm: string, f: nat) {
    && realm in c.table && c.table[realm] < |c.records| && c.records[c.table[realm]].inFlight == Some(f)
  }

  /** The event ends flight `f`, or resets its realm. */
  predicate Disturbs(s: Tab, e: Event, realm: string, f: nat)
    requires Enabled(s, e)
  {
    match e
    case DoClear(g) => g == f
    case DoLogin(r, _) => r == realm
    case DoLogout(r) => r == realm
    case DoTokenAnswer(g, answer, _) => s.ctl.flights[g].starter.ByHook? && answer.Body? && RealmOf(s.ctl, g) == realm
    case _ => false
  }

  ghost predicate Calm(s: Tab, es: seq<Event>, realm: string, f: nat)
    decreases |es|
  {
    es == [] || (Enabled(s, es[0]) && !Disturbs(s, es[0], realm, f) && Calm(Apply(s, es[0]), es[1..], realm, f))
  }

  lemma RunJoinsCurrent(c: Controller, now: nat, realm: string, f: nat, other: string, starter: Starter,
      presented: string)
    requires Tabled(c) && Pointing(c) && Current(c, realm, f)
    ensures
      var (c', flight) := Run(c, now, other, starter, presented);
      && Current(c', realm, f)
      && (other == realm ==> c' == c && flight == Some(f))
      && (forall g | |c.flights| <= g < |c'.flights| :: c'.flights[g].record < |c'.records| && RealmOf(c', g) == other)
  {
    WithRecordFacts(c, other);
  }

  lemma SettleKeepsCurrent(c: Controller, now: nat, realm: string, f: nat, g: nat, answer: Answer)
    requires Indexed(c) && Current(c, realm, f) && g < |c.flights|
    ensures Current(Settle(c, now, g, answer), realm, f)
  {
  }

  lemma ClearKeepsCurrent(c: Controller, realm: string, f: nat, g: nat)
    requires Pointing(c) && Current(c, realm, f) && g < |c.flights| && c.flights[g].phase.Settled? && g != f
    ensures Current(Clear(c, g), realm, f)
  {
  }

  /** The flights a run from `s` to `t` adds are of other realms than this one. */
  predicate NoNewFlights(s: Tab, t: Tab, realm: string) {
    && |s.ctl.flights| <= |t.ctl.flights|
    && forall g | |s.ctl.flights| <= g < |t.ctl.flights| ::
         t.ctl.flights[g].record < |t.ctl.records| && RealmOf(t.ctl, g) != realm
  }

  lemma CalmTokenAnswer(s: Tab, g: nat, answer: Answer, hookId: Option<string>, realm: string, f: nat)
    requires Indexed(s.ctl) && Current(s.ctl, realm, f) && g < |s.ctl.flights|
    requires !(s.ctl.flights[g].starter.ByHook? && answer.Body? && RealmOf(s.ctl, g) == realm)
    ensures Current(TokenAnswer(s, g, answer, hookId).ctl, realm, f) &&
            NoNewFlights(s, TokenAnswer(s, g, answer, hookId), realm)
  {
    if s.ctl.flights[g].starter.ByHook? && answer.Body? {
      var r := RealmOf(s.ctl, g);
      assert Current(Reset(s.ctl, r), realm, f);
      SettleKeepsCurrent(Reset(s.ctl, r), s.now, realm, f, g, answer);
    } else {
      SettleKeepsCurrent(s.ctl, s.now, realm, f, g, answer);
    }
  }

  lemma CalmStepController(s: Tab, e: Event, realm: string, f: nat)
    requires Invariant(s) && Enabled(s, e) && Current(s.ctl, realm, f) && !Disturbs(s, e, realm, f)
    ensures Current(Apply(s, e).ctl, realm, f) && NoNewFlights(s, Apply(s, e), realm)
  {
    match e {
      case DoFirstAnswer(i, status) =>
        FirstAnswerCtl(s, i, status);
        if Triggers(s, i, status) {
          var other := ExtractRealm(s.calls[i].path).value;
          RunJoinsCurrent(s.ctl, s.now, realm, f, other, ByCall(i), s.store.refresh.value);
        }
      case DoHookRefresh(r, presented) => RunJoinsCurrent(s.ctl, s.now, realm, f, r, ByHook, presented);
      case DoWake(i) => WakeCtl(s, i);
      case DoTokenAnswer(g, answer, hookId) => CalmTokenAnswer(s, g, answer, hookId, realm, f);
      case DoClear(g) => ClearKeepsCurrent(s.ctl, realm, f, g);
      case _ =>
    }
  }

  /** Only its own first answer changes what a call has been answered, holds and awaits. */
  lemma OtherEventsKeepAnswer(s: Tab, e: Event, i: nat)
    requires Enabled(s, e) && i < |Apply(s, e).calls| && !(e.DoFirstAnswer? && e.call == i)
    ensures i < |s.calls| ==>
              var c, c' := s.calls[i], Apply(s, e).calls[i];
              c'.path == c.path && c'.answered == c.answered && c'.held == c.held && c'.waited == c.waited
    ensures i >= |s.calls| ==> Apply(s, e).calls[i].answered.None?
  {
  }

  /** A 401 of this realm during the flight joins it. */
  lemma CalmStepJoins(s: Tab, e: Event, realm: string, f: nat, i: nat)
    requires Invariant(s) && Enabled(s, e) && Current(s.ctl, realm, f) && i < |Apply(s, e).calls|
    requires i >= |s.calls| || s.calls[i].answered.None?
    requires Due(Apply(s, e).calls[i]) && ExtractRealm(Apply(s, e).calls[i].path) == Some(realm)
    ensures Apply(s, e).calls[i].waited == Some(f)
  {
    if i < |s.calls| {
      assert CallOk(s.ctl, s.calls[i]);
    }
    if e.DoFirstAnswer? && e.call == i {
      FirstAnswerCtl(s, i, e.status);
      RunJoinsCurrent(s.ctl, s.now, realm, f, realm, ByCall(i), s.store.refresh.value);
    } else {
      OtherEventsKeepAnswer(s, e, i);
    }
  }

  lemma CallsAreNeverForgotten(s: Tab, e: Event)
    requires Enabled(s, e)
    ensures |s.calls| <= |Apply(s, e).calls|
  {
  }

  lemma {:induction false} AnswersAreFinal(s: Tab, es: seq<Event>, t: Tab, i: nat)
    requires Invariant(s) && Leads(s, es, t) && i < |s.calls| && s.calls[i].answered.Some?
    ensures i < |t.calls| && t.calls[i].path == s.calls[i].path && t.calls[i].answered == s.calls[i].answered
    ensures t.calls[i].held == s.calls[i].held && t.calls[i].waited == s.calls[i].waited
    decreases |es|
  {
    if es != [] {
      assert CallOk(s.ctl, s.calls[i]);
      CallsAreNeverForgotten(s, es[0]);
      OtherEventsKeepAnswer(s, es[0], i);
      InvariantKept(s, es[0]);
      AnswersAreFinal(Apply(s, es[0]), es[1..], t, i);
    }
  }

  lemma NoNewFlightsTransitive(s: Tab, m: Tab, t: Tab, realm: string)
    requires NoNewFlights(s, m, realm) && NoNewFlights(m, t, realm) && Extends(m.ctl, t.ctl)
    ensures NoNewFlights(s, t, realm)
  {
    forall g | |s.ctl.flights| <= g < |m.ctl.flights|
      ensures t.ctl.flights[g].record < |t.ctl.records| && RealmOf(t.ctl, g) != realm
    {
      assert RealmOf(m.ctl, g) != realm;
    }
  }

  /** A call first answered by the run's first event joins the flight then and there. */
  lemma BurstCall(s: Tab, es: seq<Event>, t: Tab, realm: string, f: nat, i: nat)
    requires Invariant(s) && Current(s.ctl, realm, f) && es != [] && Leads(s, es, t)
    requires i < |t.calls| && (i >= |s.calls| || s.calls[i].answered.None?)
    requires Due(t.calls[i]) && ExtractRealm(t.calls[i].path) == Some(realm)
    requires i >= |Apply(s, es[0]).calls| || Apply(s, es[0]).calls[i].answered.None? ==> t.calls[i].waited == Some(f)
    ensures t.calls[i].waited == Some(f)
  {
    var m := Apply(s, es[0]);
    if i < |m.calls| && m.calls[i].answered.Some? {
      InvariantKept(s, es[0]);
      AnswersAreFinal(m, es[1..], t, i);
      CalmStepJoins(s, es[0], realm, f, i);
    }
  }

  /**
   A page that fires any number of requests during one refresh of a realm causes no further refresh of it, and
   every one of them that gets a 401 awaits that same flight.  It holds until the flight ends or the realm is reset.
   */
  lemma {:induction false} BurstSharesOneRefresh(s: Tab, es: seq<Event>, t: Tab, realm: string, f: nat)
    requires Invariant(s) && Current(s.ctl, realm, f) && Leads(s, es, t) && Calm(s, es, realm, f)
    ensures Current(t.ctl, realm, f) && NoNewFlights(s, t, realm)
    ensures forall i | 0 <= i < |t.calls| && (i >= |s.calls| || s.calls[i].answered.None?)
                       && Due(t.calls[i]) && ExtractRealm(t.calls[i].path) == Some(realm) ::
              t.calls[i].waited == Some(f)
    decreases |es|
  {
    if es != [] {
      var m := Apply(s, es[0]);
      InvariantKept(s, es[0]);
      CalmStepController(s, es[0], realm, f);
      BurstSharesOneRefresh(m, es[1..], t, realm, f);
      RunKeepsInvariant(m, es[1..], t);
      NoNewFlightsTransitive(s, m, t, realm);
      forall i | 0 <= i < |t.calls| && (i >= |s.calls| || s.calls[i].answered.None?)
                 && Due(t.calls[i]) && ExtractRealm(t.calls[i].path) == Some(realm)
        ensures t.calls[i].waited == Some(f)
      {
        BurstCall(s, es, t, realm, f, i);
      }
    }
  }

  // ---------------------------------------------------------------- resets

  /** The open flights of a realm. */
  function OpenFlights(c: Controller, realm: string): set<nat>
    requires Indexed(c)
  {
    set f | 0 <= f < |c.flights| && Open(c.flights[f]) && RealmOf(c, f) == realm
  }

  lemma {:induction false} BoundedSet(S: set<nat>, n: nat)
    requires forall x | x in S :: x < n
    ensures |S| <= n
  {
    if n > 0 {
      BoundedSet(S - {n - 1}, n - 1);
    } else {
      assert S == {};
    }
  }

  lemma {:induction false} InjectiveImage(c: Controller, F: set<nat>)
    requires Indexed(c) && forall f | f in F :: f < |c.flights|
    requires forall f, g | f in F && g in F
                           && c.records[c.flights[f].record].epoch == c.records[c.flights[g].record].epoch :: f == g
    ensures |set f | f in F :: c.records[c.flights[f].record].epoch| == |F|
  {
    if F != {} {
      var f :| f in F;
      var E := set g | g in F :: c.records[c.flights[g].record].epoch;
      var E' := set g | g in F - {f} :: c.records[c.flights[g].record].epoch;
      InjectiveImage(c, F - {f});
      assert E == E' + {c.records[c.flights[f].record].epoch};
    }
  }

  /** A realm that has been reset n times has at most n + 1 refreshes in flight; without a reset, at most one. */
  lemma OpenFlightsBounded(s: Tab, realm: string)
    requires Reachable(s)
    ensures Indexed(s.ctl) && |OpenFlights(s.ctl, realm)| <= Epoch(s.ctl, realm) + 1
  {
    ReachableInvariant(s);
    var F := OpenFlights(s.ctl, realm);
    forall f, g | f in F && g in F
                  && s.ctl.records[s.ctl.flights[f].record].epoch == s.ctl.records[s.ctl.flights[g].record].epoch
      ensures f == g
    {
      SingleFlight(s.ctl, s.now, f, g);
    }
    InjectiveImage(s.ctl, F);
    BoundedSet(set f | f in F :: s.ctl.records[s.ctl.flights[f].record].epoch, Epoch(s.ctl, realm) + 1);
  }

  /** A failed refresh is not repeated for 15 seconds, unless the realm is reset in between. */
  lemma BackOffRespected(s: Tab, f: nat, g: nat)
    requires Reachable(s) && f < g < |s.ctl.flights|
    requires Indexed(s.ctl) && RealmOf(s.ctl, f) == RealmOf(s.ctl, g)
    requires s.ctl.records[s.ctl.flights[f].record].epoch == s.ctl.records[s.ctl.flights[g].record].epoch
    ensures !Open(s.ctl.flights[f])
    ensures Failed(s.ctl.flights[f]) ==> s.ctl.flights[g].openedAt >= s.ctl.flights[f].phase.at + 15_000
  {
    ReachableInvariant(s);
  }

  lemma LeadsSingle(s: Tab, e: Event)
    requires Enabled(s, e)
    ensures Leads(s, [e], Apply(s, e))
  {
    assert [e][1..] == [];
  }

  lemma LeadsStep(s: Tab, e: Event, es: seq<Event>, t: Tab)
    requires Enabled(s, e) && Leads(Apply(s, e), es, t)
    ensures Leads(s, [e] + es, t)
  {
    assert ([e] + es)[1..] == es;
  }

  lemma RunAfterReset(c: Controller, now: nat, realm: string, f: nat, starter: Starter, presented: string)
    requires Tabled(c) && Pointing(c) && Current(c, realm, f)
    ensures
      var (c', flight) := Run(Reset(c, realm), now, realm, starter, presented);
      && flight == Some(|c.flights|) && f < |c.flights|
      && Indexed(c') && c'.flights == c.flights + [Flight(|c.records|, starter, presented, now, Pending)]
      && Open(c'.flights[f]) && RealmOf(c', f) == realm && RealmOf(c', |c.flights|) == realm
  {
  }

  /**
   The bound is reached: a login during a refresh resets the realm, the flight goes on, and the next 401 starts
   a second one beside it.
   */
  lemma ResetAllowsSecondFlight(s: Tab, realm: string, f: nat, i: nat, tokens: Store)
    requires Sound(s.ctl, s.now) && Current(s.ctl, realm, f) && Truthy(tokens.refresh)
    requires i < |s.calls| && s.calls[i].stage.Sent?
    requires ExtractRealm(s.calls[i].path) == Some(realm) && !IsTokenEndpoint(s.calls[i].path)
    ensures
      var m := Login(s, realm, tokens);
      && Leads(s, [DoLogin(realm, tokens), DoFirstAnswer(i, 401)], FirstAnswer(m, i, 401))
      && Indexed(FirstAnswer(m, i, 401).ctl)
      && f != |s.ctl.flights|
      && {f, |s.ctl.flights|} <= OpenFlights(FirstAnswer(m, i, 401).ctl, realm)
  {
    var m := Login(s, realm, tokens);
    RunAfterReset(s.ctl, s.now, realm, f, ByCall(i), tokens.refresh.value);
    FirstAnswerCtl(m, i, 401);
    LeadsSingle(m, DoFirstAnswer(i, 401));
    LeadsStep(s, DoLogin(realm, tokens), [DoFirstAnswer(i, 401)], FirstAnswer(m, i, 401));
    assert [DoLogin(realm, tokens)] + [DoFirstAnswer(i, 401)] == [DoLogin(realm, tokens), DoFirstAnswer(i, 401)];
  }

  /** The realm's present record, if it has one, neither points at a refresh nor is within a back-off. */
  predicate Ready(s: Tab, realm: string)
    requires Indexed(s.ctl)
  {
    realm in s.ctl.table ==>
      s.ctl.records[s.ctl.table[realm]].inFlight.None? && s.ctl.records[s.ctl.table[realm]].blockedUntil <= s.now
  }

  lemma RunStartsIff(c: Controller, now: nat, realm: string, starter: Starter, presented: string, f: nat)
    requires Sound(c, now) && f < |c.flights| && Open(c.flights[f]) && RealmOf(c, f) == realm
    ensures |Run(c, now, realm, starter, presented).0.flights| == |c.flights| + 1 <==>
            && c.records[c.flights[f].record].epoch < Epoch(c, realm)
            && (realm in c.table ==>
                  c.records[c.table[realm]].inFlight.None? && c.records[c.table[realm]].blockedUntil <= now)
  {
    WithRecordFacts(c, realm);
  }

  /**
   Exactly when "only one refresh is triggered" fails: beside an open refresh of the realm, a 401 that triggers starts
   another one if and only if the realm was reset since that refresh was started and its present record is ready.
   */
  lemma SecondFlightIff(s: Tab, realm: string, f: nat, i: nat)
    requires Invariant(s) && f < |s.ctl.flights| && Open(s.ctl.flights[f]) && RealmOf(s.ctl, f) == realm
    requires Enabled(s, DoFirstAnswer(i, 401)) && Triggers(s, i, 401) && ExtractRealm(s.calls[i].path) == Some(realm)
    ensures Indexed(FirstAnswer(s, i, 401).ctl)
    ensures {f, |s.ctl.flights|} <= OpenFlights(FirstAnswer(s, i, 401).ctl, realm) <==>
            s.ctl.records[s.ctl.flights[f].record].epoch < Epoch(s.ctl, realm) && Ready(s, realm)
  {
    FirstAnswerCtl(s, i, 401);
    RunResult(s.ctl, s.now, realm, ByCall(i), s.store.refresh.value);
    RunStartsIff(s.ctl, s.now, realm, ByCall(i), s.store.refresh.value, f);
  }

  lemma {:induction false} LeadsTransitive(s: Tab, es: seq<Event>, m: Tab, fs: seq<Event>, t: Tab)
    requires Leads(s, es, m) && Leads(m, fs, t)
    ensures Leads(s, es + fs, t)
    decreases |es|
  {
    if es == [] {
      assert es + fs == fs;
    } else {
      LeadsTransitive(Apply(s, es[0]), es[1..], m, fs, t);
      assert (es + fs)[1..] == es[1..] + fs;
    }
  }

  lemma ReachableStep(s: Tab, e: Event)
    requires Reachable(s) && Enabled(s, e)
    ensures Reachable(Apply(s, e))
  {
    var store, now, es :| Leads(Initial(store, now), es, s);
    LeadsSingle(s, e);
    LeadsTransitive(Initial(store, now), es, s, [e], Apply(s, e));
  }

  /** A fresh page: a request goes out, is answered 401 and starts a refresh; another may have gone out before. */
  lemma CallRefreshes(store: Store, now: nat, path: string, realm: string, others: seq<string>) returns (s: Tab)
    requires ExtractRealm(path) == Some(realm) && !IsTokenEndpoint(path) && Truthy(store.refresh) && |others| <= 1
    ensures Reachable(s) && s.now == now && Current(s.ctl, realm, 0)
    ensures s.ctl.flights == [Flight(0, ByCall(0), store.refresh.value, now, Pending)]
    ensures |s.calls| == 1 + |others| && s.calls[0].stage == Waiting(0)
    ensures |others| == 1 ==> s.calls[1].path == others[0] && s.calls[1].stage.Sent?
  {
    var s0 := Initial(store, now);
    assert Leads(s0, [], s0);
    var s1 := Apply(s0, DoBegin(path));
    ReachableStep(s0, DoBegin(path));
    if |others| == 1 {
      ReachableStep(s1, DoBegin(others[0]));
      s1 := Apply(s1, DoBegin(others[0]));
    }
    FirstAnswerCtl(s1, 0, 401);
    s := FirstAnswer(s1, 0, 401);
    ReachableStep(s1, DoFirstAnswer(0, 401));
  }

  /** From a fresh page two refreshes of one realm come to be open at once. */
  lemma SecondFlightReachable(store: Store, now: nat, path: string, realm: string, tokens: Store) returns (t: Tab)
    requires ExtractRealm(path) == Some(realm) && !IsTokenEndpoint(path)
    requires Truthy(store.refresh) && Truthy(tokens.refresh)
    ensures Reachable(t) && Indexed(t.ctl) && {0, 1} <= OpenFlights(t.ctl, realm)
  {
    var s := CallRefreshes(store, now, path, realm, [path]);
    ReachableInvariant(s);
    ResetAllowsSecondFlight(s, realm, 0, 1, tokens);
    ReachableStep(s, DoLogin(realm, tokens));
    ReachableStep(Login(s, realm, tokens), DoFirstAnswer(1, 401));
    t := FirstAnswer(Login(s, realm, tokens), 1, 401);
  }

  // ---------------------------------------------------------------- the hook's refresh

  /** A call awaits a refresh the hook started, which is then answered with tokens. */
  lemma HookAnswerEmptiesStore(s: Tab, i: nat, f: nat, g: Grant)
    requires Sound(s.ctl, s.now) && i < |s.calls| && s.calls[i].stage == Waiting(f)
    requires f < |s.ctl.flights| && s.ctl.flights[f].starter.ByHook? && s.ctl.flights[f].phase.Pending?
    ensures
      var m := TokenAnswer(s, f, Body(g), None);
      var n := m.(ctl := Clear(m.ctl, f));
      && m.store == Store(g.access, g.refresh, g.id)
      && Leads(s, [DoTokenAnswer(f, Body(g), None), DoClear(f), DoWake(i)], Wake(n, i))
      && Wake(n, i).store == SIGNED_OUT && Wake(n, i).calls[i].stage == Threw(Some(401))
  {
    var m := TokenAnswer(s, f, Body(g), None);
    TokenAnswerKept(s, f, Body(g), None);
    var n := m.(ctl := Clear(m.ctl, f));
    ClearExtends(m.ctl, f);
    LeadsSingle(n, DoWake(i));
    LeadsStep(m, DoClear(f), [DoWake(i)], Wake(n, i));
    LeadsStep(s, DoTokenAnswer(f, Body(g), None), [DoClear(f)] + [DoWake(i)], Wake(n, i));
    assert [DoTokenAnswer(f, Body(g), None)] + ([DoClear(f)] + [DoWake(i)]) ==
        [DoTokenAnswer(f, Body(g), None), DoClear(f), DoWake(i)];
  }

  /** A fresh page: a request is out when the hook starts a refresh, and is answered 401. */
  lemma CallJoinsHook(store: Store, now: nat, path: string, realm: string, presented: string) returns (s: Tab)
    requires ExtractRealm(path) == Some(realm) && !IsTokenEndpoint(path) && Truthy(store.refresh) && presented != ""
    ensures Leads(Initial(store, now), [DoBegin(path), DoHookRefresh(realm, presented), DoFirstAnswer(0, 401)], s)
    ensures |s.calls| == 1 && s.calls[0].stage == Waiting(0)
    ensures s.ctl.flights == [Flight(0, ByHook, presented, now, Pending)]
  {
    var s0 := Initial(store, now);
    var s1 := Apply(s0, DoBegin(path));
    var s2 := Apply(s1, DoHookRefresh(realm, presented));
    assert s2.ctl.flights == [Flight(0, ByHook, presented, now, Pending)] && Current(s2.ctl, realm, 0);
    FirstAnswerCtl(s2, 0, 401);
    s := FirstAnswer(s2, 0, 401);
    LeadsSingle(s2, DoFirstAnswer(0, 401));
    LeadsStep(s1, DoHookRefresh(realm, presented), [DoFirstAnswer(0, 401)], s);
    LeadsStep(s0, DoBegin(path), [DoHookRefresh(realm, presented)] + [DoFirstAnswer(0, 401)], s);
    assert [DoBegin(path)] + ([DoHookRefresh(realm, presented)] + [DoFirstAnswer(0, 401)])
        == [DoBegin(path), DoHookRefresh(realm, presented), DoFirstAnswer(0, 401)];
  }

  /**
   The hook's refresh succeeds and stores new tokens; a call that joined it throws all the same and leaves the
   user signed out.
   */
  lemma JoiningTheHookSignsOut(store: Store, now: nat, path: string, realm: string, presented: string, g: Grant)
      returns (t: Tab)
    requires ExtractRealm(path) == Some(realm) && !IsTokenEndpoint(path) && Truthy(store.refresh) && presented != ""
    ensures Reachable(t) && t.store == SIGNED_OUT && |t.calls| > 0 && t.calls[0].stage == Threw(Some(401))
    ensures (g.access, g.refresh) in t.issued
  {
    var s := CallJoinsHook(store, now, path, realm, presented);
    var es := [DoBegin(path), DoHookRefresh(realm, presented), DoFirstAnswer(0, 401)];
    assert Reachable(s);
    ReachableInvariant(s);
    HookAnswerEmptiesStore(s, 0, 0, g);
    var m := TokenAnswer(s, 0, Body(g), None);
    t := Wake(m.(ctl := Clear(m.ctl, 0)), 0);
    LeadsTransitive(Initial(store, now), es, s, [DoTokenAnswer(0, Body(g), None), DoClear(0), DoWake(0)], t);
  }

  // ---------------------------------------------------------------- logging out

  /** Flight `f` may still hand a waiting call something to store. */
  predicate MayDeliver(c: Controller, f: nat)
    requires f < |c.flights|
  {
    && c.flights[f].starter.ByCall?
    && (c.flights[f].phase.Pending?
        || (c.flights[f].phase.answer.Body? && c.flights[f].phase.answer.grant != Grant(None, None, None)))
  }

  /** Nobody is left who could fill the store: no call awaits a refresh that may deliver, and no hook request is out. */
  predicate Quiet(s: Tab) {
    && (forall i | 0 <= i < |s.calls| && s.calls[i].stage.Waiting? ::
          s.calls[i].stage.flight < |s.ctl.flights| && !MayDeliver(s.ctl, s.calls[i].stage.flight))
    && (forall f | 0 <= f < |s.ctl.flights| && s.ctl.flights[f].starter.ByHook? :: !s.ctl.flights[f].phase.Pending?)
  }

  /**
   The events with which tokens can come anew: a login, and a refresh the hook starts, be it with a token kept too
   long.
   */
  predicate BringsTokens(e: Event) {
    e.DoLogin? || e.DoHookRefresh?
  }

  lemma QuietAnswer(s: Tab, f: nat, answer: Answer, hookId: Option<string>)
    requires Indexed(s.ctl) && Quiet(s) && s.store == SIGNED_OUT
    requires f < |s.ctl.flights| && s.ctl.flights[f].phase.Pending?
    ensures Quiet(TokenAnswer(s, f, answer, hookId)) && TokenAnswer(s, f, answer, hookId).store == SIGNED_OUT
  {
    var t := TokenAnswer(s, f, answer, hookId);
    assert t.calls == s.calls;
    assert forall g | 0 <= g < |s.ctl.flights| && g != f :: t.ctl.flights[g] == s.ctl.flights[g];
    forall i | 0 <= i < |s.calls| && s.calls[i].stage.Waiting?
      ensures !MayDeliver(t.ctl, s.calls[i].stage.flight)
    {
      assert !MayDeliver(s.ctl, s.calls[i].stage.flight);
    }
  }

  lemma QuietWake(s: Tab, i: nat)
    requires Quiet(s) && s.store == SIGNED_OUT && i < |s.calls|
    requires s.calls[i].stage.Refused? || (s.calls[i].stage.Waiting? && CanWake(s.ctl, s.calls[i].stage.flight))
    ensures Quiet(Wake(s, i)) && Wake(s, i).store == SIGNED_OUT
  {
  }

  lemma QuietStep(s: Tab, e: Event)
    requires Enabled(s, e) && Quiet(s) && s.store == SIGNED_OUT && !BringsTokens(e)
    ensures Quiet(Apply(s, e)) && Apply(s, e).store == SIGNED_OUT
  {
    match e {
      case DoFirstAnswer(i, status) => assert !Triggers(s, i, status);
      case DoTokenAnswer(f, answer, hookId) => QuietAnswer(s, f, answer, hookId);
      case DoWake(i) => QuietWake(s, i);
      case _ =>
    }
  }

  lemma {:induction false} QuietStaysSignedOut(s: Tab, es: seq<Event>, t: Tab)
    requires Quiet(s) && s.store == SIGNED_OUT && Leads(s, es, t)
    requires forall e | e in es :: !BringsTokens(e)
    ensures t.store == SIGNED_OUT
    decreases |es|
  {
    if es != [] {
      QuietStep(s, es[0]);
      QuietStaysSignedOut(Apply(s, es[0]), es[1..], t);
    }
  }

  const SOME_TOKENS := Body(Grant(Some("a"), Some("r"), None))

  lemma HookFills(s: Tab, f: nat) returns (es: seq<Event>, t: Tab)
    requires Indexed(s.ctl) && f < |s.ctl.flights|
    requires s.ctl.flights[f].starter.ByHook? && s.ctl.flights[f].phase.Pending?
    ensures Leads(s, es, t) && t.store != SIGNED_OUT && forall e | e in es :: !BringsTokens(e)
  {
    var e := DoTokenAnswer(f, SOME_TOKENS, None);
    t := Apply(s, e);
    es := [e];
    assert Leads(t, es[1..], t);
  }

  lemma WakeFills(s: Tab, i: nat)
    requires Enabled(s, DoWake(i)) && s.store == SIGNED_OUT && s.calls[i].stage.Waiting?
    requires MayDeliver(s.ctl, s.calls[i].stage.flight)
    ensures Apply(s, DoWake(i)).store != SIGNED_OUT
  {
  }

  lemma DeliveredFills(s: Tab, i: nat) returns (es: seq<Event>, t: Tab)
    requires Indexed(s.ctl) && s.store == SIGNED_OUT && i < |s.calls| && s.calls[i].stage.Waiting?
    requires s.calls[i].stage.flight < |s.ctl.flights| && MayDeliver(s.ctl, s.calls[i].stage.flight)
    requires !s.ctl.flights[s.calls[i].stage.flight].phase.Pending?
    ensures Leads(s, es, t) && t.store != SIGNED_OUT && forall e | e in es :: !BringsTokens(e)
  {
    var f := s.calls[i].stage.flight;
    if s.ctl.flights[f].phase.Settled? {
      var m := Apply(s, DoClear(f));
      ClearExtends(s.ctl, f);
      assert m.ctl.flights[f].phase.answer == s.ctl.flights[f].phase.answer;
      WakeFills(m, i);
      t := Apply(m, DoWake(i));
      LeadsSingle(m, DoWake(i));
      LeadsStep(s, DoClear(f), [DoWake(i)], t);
      es := [DoClear(f)] + [DoWake(i)];
    } else {
      WakeFills(s, i);
      t := Apply(s, DoWake(i));
      LeadsSingle(s, DoWake(i));
      es := [DoWake(i)];
    }
  }

  lemma AwaitedFills(s: Tab, i: nat) returns (es: seq<Event>, t: Tab)
    requires Invariant(s) && s.store == SIGNED_OUT && i < |s.calls| && s.calls[i].stage.Waiting?
    requires s.calls[i].stage.flight < |s.ctl.flights| && MayDeliver(s.ctl, s.calls[i].stage.flight)
    ensures Leads(s, es, t) && t.store != SIGNED_OUT && forall e | e in es :: !BringsTokens(e)
  {
    var f := s.calls[i].stage.flight;
    if s.ctl.flights[f].phase.Pending? {
      var e := DoTokenAnswer(f, SOME_TOKENS, None);
      var m := Apply(s, e);
      InvariantKept(s, e);
      var fs;
      fs, t := DeliveredFills(m, i);
      es := [e] + fs;
      assert es[1..] == fs;
    } else {
      es, t := DeliveredFills(s, i);
    }
  }

  /** Otherwise one answer, or an answer already there, fills the store again. */
  lemma UnquietFills(s: Tab) returns (es: seq<Event>, t: Tab)
    requires Invariant(s) && !Quiet(s) && s.store == SIGNED_OUT
    ensures Leads(s, es, t) && t.store != SIGNED_OUT && forall e | e in es :: !BringsTokens(e)
  {
    if f: nat :| f < |s.ctl.flights| && s.ctl.flights[f].starter.ByHook? && s.ctl.flights[f].phase.Pending? {
      es, t := HookFills(s, f);
    } else {
      var i: nat :| i < |s.calls| && s.calls[i].stage.Waiting?
                    && !(s.calls[i].stage.flight < |s.ctl.flights| && !MayDeliver(s.ctl, s.calls[i].stage.flight));
      assert CallOk(s.ctl, s.calls[i]);
      es, t := AwaitedFills(s, i);
    }
  }

  /** Whatever happens, the store is empty until a login or a refresh that the hook starts later. */
  ghost predicate EmptyUntilBrought(s: Tab) {
    forall es, t :: Leads(s, es, t) && (forall e | e in es :: !BringsTokens(e)) ==> t.store == SIGNED_OUT
  }

  /**
   An empty store stays empty, until a login or a refresh that the hook starts later, exactly when nobody is left who
   could fill it.  So a logout is final unless a refresh is under way: a call that awaits one writes its tokens after
   the logout.
   */
  lemma LogoutIsFinalIffQuiet(s: Tab)
    requires Invariant(s) && s.store == SIGNED_OUT
    ensures Quiet(s) <==> EmptyUntilBrought(s)
  {
    if Quiet(s) {
      forall es, t | Leads(s, es, t) && (forall e | e in es :: !BringsTokens(e))
        ensures t.store == SIGNED_OUT
      {
        QuietStaysSignedOut(s, es, t);
      }
    } else {
      var es, t := UnquietFills(s);
    }
  }

  /** From a fresh page: a logout during a call's refresh is not final. */
  lemma LogoutUndone(store: Store, now: nat, path: string, realm: string) returns (s: Tab)
    requires ExtractRealm(path) == Some(realm) && !IsTokenEndpoint(path) && Truthy(store.refresh)
    ensures Reachable(s) && s.store == SIGNED_OUT && !EmptyUntilBrought(s)
  {
    var m := CallRefreshes(store, now, path, realm, []);
    ReachableInvariant(m);
    ReachableStep(m, DoLogout(realm));
    s := Logout(m, realm);
    ReachableInvariant(s);
    assert s.calls[0].stage == Waiting(0) && MayDeliver(s.ctl, 0);
    LogoutIsFinalIffQuiet(s);
  }
}
