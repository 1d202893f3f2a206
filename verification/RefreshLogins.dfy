/** What becomes of the tokens a login stores while older refreshes and replays are still under way. */
module RefreshLogins {
  import opened Common
  import opened RealmUrl
  import opened RefreshController
  import opened RefreshProtocol
  import opened RefreshSafety
  import opened RefreshRuns

  /** The event is no login, no logout and starts no refresh: it carries on what is under way, or sends a request. */
  predicate CarriesOn(s: Tab, e: Event)
    requires Enabled(s, e)
  {
    match e
    case DoLogin(_, _) | DoLogout(_) | DoHookRefresh(_, _) => false
    case DoFirstAnswer(i, status) => !Triggers(s, i, status)
    case _ => true
  }

  ghost predicate CarryOn(s: Tab, es: seq<Event>)
    decreases |es|
  {
    es != [] ==> Enabled(s, es[0]) && CarriesOn(s, es[0]) && CarryOn(Apply(s, es[0]), es[1..])
  }

  /** The flight is over with the one error on which a waiting call leaves the store alone. */
  predicate Spent(c: Controller, f: nat) {
    && f < |c.flights| && !c.flights[f].phase.Pending?
    && OutcomeOf(c.flights[f].starter, c.flights[f].phase.answer) == Thrown(BLOCKED)
  }

  /** No call waits for anything else, none replays, and no hook request is out. */
  predicate Harmless(s: Tab) {
    && (forall i | 0 <= i < |s.calls| ::
          && !s.calls[i].stage.Replaying?
          && (s.calls[i].stage.Waiting? ==> Spent(s.ctl, s.calls[i].stage.flight)))
    && (forall f | 0 <= f < |s.ctl.flights| && s.ctl.flights[f].starter.ByHook? :: !s.ctl.flights[f].phase.Pending?)
  }

  // ---------------------------------------------------------------- nothing changes the store

  lemma HarmlessAnswer(s: Tab, f: nat, answer: Answer, hookId: Option<string>)
    requires Indexed(s.ctl) && Harmless(s) && f < |s.ctl.flights| && s.ctl.flights[f].phase.Pending?
    ensures Harmless(TokenAnswer(s, f, answer, hookId)) && TokenAnswer(s, f, answer, hookId).store == s.store
  {
    var t := TokenAnswer(s, f, answer, hookId);
    assert t.calls == s.calls;
    assert forall g | 0 <= g < |s.ctl.flights| && g != f :: t.ctl.flights[g] == s.ctl.flights[g];
  }

  lemma HarmlessClear(s: Tab, f: nat)
    requires Indexed(s.ctl) && Harmless(s) && f < |s.ctl.flights| && s.ctl.flights[f].phase.Settled?
    ensures Harmless(s.(ctl := Clear(s.ctl, f)))
  {
    var c := Clear(s.ctl, f);
    assert forall g | 0 <= g < |s.ctl.flights| && g != f :: c.flights[g] == s.ctl.flights[g];
  }

  lemma HarmlessWake(s: Tab, i: nat)
    requires Harmless(s) && i < |s.calls|
    requires s.calls[i].stage.Refused? || (s.calls[i].stage.Waiting? && CanWake(s.ctl, s.calls[i].stage.flight))
    ensures Harmless(Wake(s, i)) && Wake(s, i).store == s.store
  {
  }

  lemma HarmlessStep(s: Tab, e: Event)
    requires Enabled(s, e) && CarriesOn(s, e) && Harmless(s)
    ensures Harmless(Apply(s, e)) && Apply(s, e).store == s.store
  {
    match e {
      case DoTokenAnswer(f, answer, hookId) => HarmlessAnswer(s, f, answer, hookId);
      case DoClear(f) => HarmlessClear(s, f);
      case DoWake(i) => HarmlessWake(s, i);
      case _ =>
    }
  }

  lemma {:induction false} HarmlessRun(s: Tab, es: seq<Event>, t: Tab)
    requires Harmless(s) && Leads(s, es, t) && CarryOn(s, es)
    ensures t.store == s.store
    decreases |es|
  {
    if es != [] {
      HarmlessStep(s, es[0]);
      HarmlessRun(Apply(s, es[0]), es[1..], t);
    }
  }

  // ---------------------------------------------------------------- something does

  lemma CarryOnSingle(s: Tab, e: Event)
    requires Enabled(s, e) && CarriesOn(s, e)
    ensures Leads(s, [e], Apply(s, e)) && CarryOn(s, [e])
  {
    LeadsSingle(s, e);
    assert [e][1..] == [];
  }

  lemma CarryOnStep(s: Tab, e: Event, es: seq<Event>, t: Tab)
    requires Enabled(s, e) && CarriesOn(s, e) && Leads(Apply(s, e), es, t) && CarryOn(Apply(s, e), es)
    ensures Leads(s, [e] + es, t) && CarryOn(s, [e] + es)
  {
    LeadsStep(s, e, es, t);
    assert ([e] + es)[1..] == es;
  }

  lemma ReplayWipes(s: Tab, i: nat) returns (es: seq<Event>, t: Tab)
    requires Indexed(s.ctl) && i < |s.calls| && s.calls[i].stage.Replaying?
    ensures Leads(s, es, t) && CarryOn(s, es) && t.store == SIGNED_OUT
  {
    var e := DoReplayFail(i, "");
    CarryOnSingle(s, e);
    es, t := [e], Apply(s, e);
  }

  /** A waiting call whose flight is over stores nulls, or tokens and then, its replay failing, nulls. */
  lemma WakeWipes(s: Tab, i: nat) returns (es: seq<Event>, t: Tab)
    requires Enabled(s, DoWake(i)) && s.calls[i].stage.Waiting? && !Spent(s.ctl, s.calls[i].stage.flight)
    ensures Leads(s, es, t) && CarryOn(s, es) && t.store == SIGNED_OUT
  {
    var f := s.ctl.flights[s.calls[i].stage.flight];
    var m := Apply(s, DoWake(i));
    WakeCtl(s, i);
    if OutcomeOf(f.starter, f.phase.answer).Tokens? {
      var fs;
      fs, t := ReplayWipes(m, i);
      CarryOnStep(s, DoWake(i), fs, t);
      es := [DoWake(i)] + fs;
    } else {
      CarryOnSingle(s, DoWake(i));
      es, t := [DoWake(i)], m;
    }
  }

  lemma SettledWipes(s: Tab, i: nat) returns (es: seq<Event>, t: Tab)
    requires Indexed(s.ctl) && i < |s.calls| && s.calls[i].stage.Waiting? && s.calls[i].stage.flight < |s.ctl.flights|
    requires !Spent(s.ctl, s.calls[i].stage.flight) && !s.ctl.flights[s.calls[i].stage.flight].phase.Pending?
    ensures Leads(s, es, t) && CarryOn(s, es) && t.store == SIGNED_OUT
  {
    var f := s.calls[i].stage.flight;
    if s.ctl.flights[f].phase.Settled? {
      var m := Apply(s, DoClear(f));
      ClearExtends(s.ctl, f);
      assert m.ctl.flights[f].phase.answer == s.ctl.flights[f].phase.answer;
      var fs;
      fs, t := WakeWipes(m, i);
      CarryOnStep(s, DoClear(f), fs, t);
      es := [DoClear(f)] + fs;
    } else {
      es, t := WakeWipes(s, i);
    }
  }

  /** The refresh a call waits for may still fail. */
  lemma WaitWipes(s: Tab, i: nat) returns (es: seq<Event>, t: Tab)
    requires Indexed(s.ctl) && i < |s.calls| && s.calls[i].stage.Waiting? && s.calls[i].stage.flight < |s.ctl.flights|
    requires !Spent(s.ctl, s.calls[i].stage.flight)
    ensures Leads(s, es, t) && CarryOn(s, es) && t.store == SIGNED_OUT
  {
    var f := s.calls[i].stage.flight;
    if s.ctl.flights[f].phase.Pending? {
      var e := DoTokenAnswer(f, Error(""), None);
      SettleExtends(s.ctl, s.now, f, Error(""));
      var fs;
      fs, t := SettledWipes(Apply(s, e), i);
      CarryOnStep(s, e, fs, t);
      es := [e] + fs;
    } else {
      es, t := SettledWipes(s, i);
    }
  }

  /** A hook request that is out may bring other tokens. */
  lemma HookOverwrites(s: Tab, f: nat) returns (es: seq<Event>, t: Tab)
    requires Indexed(s.ctl) && f < |s.ctl.flights|
    requires s.ctl.flights[f].starter.ByHook? && s.ctl.flights[f].phase.Pending?
    ensures Leads(s, es, t) && CarryOn(s, es) && t.store != s.store
  {
    var other := if s.store.access == Some("a") then "b" else "a";
    var e := DoTokenAnswer(f, Body(Grant(Some(other), None, None)), None);
    CarryOnSingle(s, e);
    es, t := [e], Apply(s, e);
  }

  lemma HarmfulChanges(s: Tab) returns (es: seq<Event>, t: Tab)
    requires Invariant(s) && !Harmless(s) && s.store != SIGNED_OUT
    ensures Leads(s, es, t) && CarryOn(s, es) && t.store != s.store
  {
    if f: nat :| f < |s.ctl.flights| && s.ctl.flights[f].starter.ByHook? && s.ctl.flights[f].phase.Pending? {
      es, t := HookOverwrites(s, f);
    } else {
      var i: nat :| i < |s.calls|
                    && (s.calls[i].stage.Replaying?
                        || (s.calls[i].stage.Waiting? && !Spent(s.ctl, s.calls[i].stage.flight)));
      assert CallOk(s.ctl, s.calls[i]);
      if s.calls[i].stage.Replaying? {
        es, t := ReplayWipes(s, i);
      } else {
        es, t := WaitWipes(s, i);
      }
    }
  }

  // ---------------------------------------------------------------- the theorem

  /** However what is under way goes on, the store keeps what it holds. */
  ghost predicate Survives(s: Tab) {
    forall es, t :: Leads(s, es, t) && CarryOn(s, es) ==> t.store == s.store
  }

  /**
   The tokens in the store, just logged in with or older, survive what is under way exactly when no call waits for a
   refresh that can end otherwise than BLOCKED, none replays, and no hook request is out.
   */
  lemma LoginSurvivesIff(s: Tab)
    requires Invariant(s) && s.store != SIGNED_OUT
    ensures Harmless(s) <==> Survives(s)
  {
    if Harmless(s) {
      forall es, t | Leads(s, es, t) && CarryOn(s, es)
        ensures t.store == s.store
      {
        HarmlessRun(s, es, t);
      }
    } else {
      var es, t := HarmfulChanges(s);
    }
  }

  /**
   From a fresh page: a call starts a refresh, the user logs in meanwhile, the old refresh fails, and the call's catch
   clause wipes the new tokens.
   */
  lemma LoginWiped(store: Store, now: nat, path: string, realm: string, tokens: Store)
      returns (s: Tab, es: seq<Event>, t: Tab)
    requires ExtractRealm(path) == Some(realm) && !IsTokenEndpoint(path) && Truthy(store.refresh)
    ensures Reachable(s) && s.store == tokens && (tokens.access, tokens.refresh) in s.issued
    ensures Leads(s, es, t) && CarryOn(s, es) && t.store == SIGNED_OUT
  {
    var m := CallRefreshes(store, now, path, realm, []);
    ReachableInvariant(m);
    ReachableStep(m, DoLogin(realm, tokens));
    s := Login(m, realm, tokens);
    ReachableInvariant(s);
    es, t := WaitWipes(s, 0);
  }
}
