/**
 The refresh code in its own form: the token store, the controller and the fetcher update their fields in
 place.  Each method is one stretch between two awaits, and does what the state machine says.
 */
module BrowserSession {
  import opened Common
  import opened RealmUrl
  import RC = RefreshController
  import P = RefreshProtocol
  import RefreshSafety

  class AuthStore {
    var accessToken: Option<string>
    var refreshToken: Option<string>
    var idToken: Option<string>

    ghost function View(): P.Store
      reads this
    {
      P.Store(accessToken, refreshToken, idToken)
    }

    method SetTokens(access: Option<string>, refresh: Option<string>, id: Option<string>)
      modifies this
      ensures View() == P.Store(access, refresh, id)
    {
      accessToken := access;
      refreshToken := refresh;
      idToken := id;
    }
  }

  class Controller {
    var table: map<string, nat>
    var records: seq<RC.Record>
    var flights: seq<RC.Flight>
    var resets: map<string, nat>

    ghost function View(): RC.Controller
      reads this
    {
      RC.Controller(table, records, flights, resets)
    }

    method GetState(realm: string) returns (k: nat)
      modifies this
      ensures View() == RC.WithRecord(old(View()), realm)
      ensures realm in table && k == table[realm]
    {
      if realm !in table {
        var epoch := if realm in resets then resets[realm] else 0;
        table := table[realm := |records|];
        records := records + [RC.Record(realm, epoch, 0, None)];
      }
      k := table[realm];
    }

    method Run(now: nat, realm: string, starter: RC.Starter, presented: string) returns (flight: Option<nat>)
      requires RC.Indexed(View())
      modifies this
      ensures (View(), flight) == RC.Run(old(View()), now, realm, starter, presented)
    {
      var k := GetState(realm);
      if records[k].inFlight.Some? {
        return records[k].inFlight;
      }
      if records[k].blockedUntil > now {
        return None;
      }
      flight := Some(|flights|);
      flights := flights + [RC.Flight(k, starter, presented, now, RC.Pending)];
      records := records[k := records[k].(inFlight := flight)];
    }

    method Reset(realm: string)
      modifies this
      ensures View() == RC.Reset(old(View()), realm)
    {
      table := table - {realm};
      resets := resets[realm := (if realm in resets then resets[realm] else 0) + 1];
    }

    method Settle(now: nat, f: nat, answer: RC.Answer)
      requires RC.Indexed(View()) && f < |flights|
      modifies this
      ensures View() == RC.Settle(old(View()), now, f, answer)
    {
      var k := flights[f].record;
      if RC.OutcomeOf(flights[f].starter, answer).Thrown? {
        records := records[k := records[k].(blockedUntil := now + RC.BACKOFF_MS)];
      } else {
        records := records[k := records[k].(blockedUntil := 0)];
      }
      flights := flights[f := flights[f].(phase := RC.Settled(answer, now))];
    }

    method Clear(f: nat)
      requires RC.Indexed(View()) && f < |flights| && flights[f].phase.Settled?
      modifies this
      ensures View() == RC.Clear(old(View()), f)
    {
      var k := flights[f].record;
      records := records[k := records[k].(inFlight := None)];
      flights := flights[f := flights[f].(phase := RC.Cleared(flights[f].phase.answer, flights[f].phase.at))];
    }
  }

  class Session {
    const store: AuthStore
    const controller: Controller
    var now: nat
    var calls: seq<P.Call>
    ghost var issued: set<(Option<string>, Option<string>)>

    ghost function View(): P.Tab
      reads this, store, controller
    {
      P.Tab(store.View(), now, controller.View(), calls, issued)
    }

    ghost predicate Valid()
      reads this, store, controller
    {
      RefreshSafety.Invariant(View())
    }

    constructor (saved: P.Store, now: nat)
      ensures Valid() && fresh(store) && fresh(controller)
      ensures View() == P.Initial(saved, now)
    {
      var s := new AuthStore;
      s.SetTokens(saved.access, saved.refresh, saved.id);
      var c := new Controller;
      c.table, c.records, c.flights, c.resets := map[], [], [], map[];
      store, controller, this.now, calls := s, c, now, [];
      issued := {(saved.access, saved.refresh)};
    }

    // ------------------------------------------------------------ the stretches of code

    method Begin(path: string) returns (i: nat)
      requires P.Enabled(View(), P.DoBegin(path))
      modifies this`calls
      ensures View() == P.Apply(old(View()), P.DoBegin(path))
      ensures i == |old(calls)|
    {
      i := |calls|;
      calls := calls + [P.Call(path, [store.accessToken], [], None, None, None, None, P.Sent)];
    }

    method OnFirstAnswer(i: nat, status: int)
      requires P.Enabled(View(), P.DoFirstAnswer(i, status))
      modifies this`calls, controller
      ensures View() == P.Apply(old(View()), P.DoFirstAnswer(i, status))
    {
      var call := calls[i].(answered := Some(status));
      if status == 401 && !IsTokenEndpoint(call.path) {
        var refreshToken := store.refreshToken;
        var realm := ExtractRealm(call.path);
        if P.Truthy(refreshToken) && realm.Some? {
          var flight := controller.Run(now, realm.value, RC.ByCall(i), refreshToken.value);
          var stage := if flight.Some? then P.Waiting(flight.value) else P.Refused;
          calls := calls[i := call.(held := refreshToken, waited := flight, stage := stage)];
          return;
        }
      }
      Finish(i, call, status);
    }

    /** The tail of the fetcher: a response that is not ok throws its status. */
    method Finish(i: nat, call: P.Call, status: int)
      requires i < |calls|
      modifies this`calls
      ensures calls == old(calls)[i := P.Finished(call, status)]
    {
      if 200 <= status < 300 {
        calls := calls[i := call.(stage := P.Returned(status))];
      } else {
        calls := calls[i := call.(stage := P.Threw(Some(status)))];
      }
    }

    method OnFirstFail(i: nat)
      requires P.Enabled(View(), P.DoFirstFail(i))
      modifies this`calls
      ensures View() == P.Apply(old(View()), P.DoFirstFail(i))
    {
      calls := calls[i := calls[i].(stage := P.Threw(None))];
    }

    /** The catch clause, and the original 401 thrown after it. */
    method Catch(i: nat, message: string)
      requires i < |calls|
      modifies this`calls, store
      ensures View() == P.RefreshFailed(old(View()), i, message)
    {
      var call := calls[i].(caught := Some(message));
      if message != RC.BLOCKED {
        store.SetTokens(None, None, None);
        call := call.(writes := call.writes + [P.SIGNED_OUT]);
      }
      calls := calls[i := call.(stage := P.Threw(Some(401)))];
    }

    method OnWake(i: nat)
      requires P.Enabled(View(), P.DoWake(i))
      modifies this`calls, store
      ensures View() == P.Apply(old(View()), P.DoWake(i))
    {
      var call := calls[i];
      if call.stage.Refused? {
        Catch(i, RC.BLOCKED);
        return;
      }
      var f := controller.flights[call.stage.flight];
      match RC.OutcomeOf(f.starter, f.phase.answer) {
        case Thrown(message) => Catch(i, message);
        case Undefined => Catch(i, RC.TYPE_ERROR);
        case Tokens(refreshed) =>
          var id := if refreshed.id.Some? then refreshed.id else store.idToken;
          store.SetTokens(refreshed.access, refreshed.refresh, id);
          call := call.(writes := call.writes + [P.Store(refreshed.access, refreshed.refresh, id)]);
          calls := calls[i := call.(sends := call.sends + [refreshed.access], stage := P.Replaying)];
      }
    }

    method OnReplayAnswer(i: nat, status: int)
      requires P.Enabled(View(), P.DoReplayAnswer(i, status))
      modifies this`calls
      ensures View() == P.Apply(old(View()), P.DoReplayAnswer(i, status))
    {
      Finish(i, calls[i], status);
    }

    method OnReplayFail(i: nat, message: string)
      requires P.Enabled(View(), P.DoReplayFail(i, message))
      modifies this`calls, store
      ensures View() == P.Apply(old(View()), P.DoReplayFail(i, message))
    {
      Catch(i, message);
    }

    /** setAuthTokensWrapper */
    method Login(realm: string, tokens: P.Store)
      requires P.Enabled(View(), P.DoLogin(realm, tokens))
      modifies this`issued, store, controller
      ensures View() == P.Apply(old(View()), P.DoLogin(realm, tokens))
    {
      controller.Reset(realm);
      store.SetTokens(tokens.access, tokens.refresh, tokens.id);
      issued := issued + {(tokens.access, tokens.refresh)};
    }

    /** clearAuthState */
    method Logout(realm: string)
      requires P.Enabled(View(), P.DoLogout(realm))
      modifies store, controller
      ensures View() == P.Apply(old(View()), P.DoLogout(realm))
    {
      controller.Reset(realm);
      store.SetTokens(None, None, None);
    }

    /** refreshAccessToken */
    method HookRefresh(realm: string, presented: string) returns (flight: Option<nat>)
      requires P.Enabled(View(), P.DoHookRefresh(realm, presented))
      modifies controller
      ensures View() == P.Apply(old(View()), P.DoHookRefresh(realm, presented))
    {
      flight := controller.Run(now, realm, RC.ByHook, presented);
    }

    method OnTokenAnswer(f: nat, answer: RC.Answer, hookId: Option<string>)
      requires P.Enabled(View(), P.DoTokenAnswer(f, answer, hookId))
      modifies this`issued, store, controller
      ensures View() == P.Apply(old(View()), P.DoTokenAnswer(f, answer, hookId))
    {
      if answer.Body? {
        var g := answer.grant;
        issued := issued + {(g.access, g.refresh)};
        if controller.flights[f].starter.ByHook? {
          controller.Reset(controller.records[controller.flights[f].record].realm);
          store.SetTokens(g.access, g.refresh, if g.id.Some? then g.id else hookId);
        }
      }
      controller.Settle(now, f, answer);
      assert View().issued == P.Apply(old(View()), P.DoTokenAnswer(f, answer, hookId)).issued;
    }

    method OnClear(f: nat)
      requires P.Enabled(View(), P.DoClear(f))
      modifies controller
      ensures View() == P.Apply(old(View()), P.DoClear(f))
    {
      controller.Clear(f);
    }

    method Elapse(ms: nat)
      requires P.Enabled(View(), P.DoTick(ms))
      modifies this`now
      ensures View() == P.Apply(old(View()), P.DoTick(ms))
    {
      now := now + ms;
    }

    // ------------------------------------------------------------ the event loop

    /** One turn of the event loop. */
    method Perform(e: P.Event)
      requires P.Enabled(View(), e)
      modifies this, store, controller
      ensures View() == P.Apply(old(View()), e)
    {
      match e {
        case DoBegin(path) => var _ := Begin(path);
        case DoFirstAnswer(i, status) => OnFirstAnswer(i, status);
        case DoFirstFail(i) => OnFirstFail(i);
        case DoWake(i) => OnWake(i);
        case DoReplayAnswer(i, status) => OnReplayAnswer(i, status);
        case DoReplayFail(i, message) => OnReplayFail(i, message);
        case DoTokenAnswer(f, answer, hookId) => OnTokenAnswer(f, answer, hookId);
        case DoClear(f) => OnClear(f);
        case DoHookRefresh(realm, presented) => var _ := HookRefresh(realm, presented);
        case DoLogin(realm, tokens) => Login(realm, tokens);
        case DoLogout(realm) => Logout(realm);
        case DoTick(ms) => Elapse(ms);
      }
    }

    /** Whatever happens next, the code does what the machine does and keeps the machine's invariant. */
    method Turn(e: P.Event)
      requires Valid() && P.Enabled(View(), e)
      modifies this, store, controller
      ensures Valid() && View() == P.Apply(old(View()), e)
    {
      ghost var before := View();
      Perform(e);
      RefreshSafety.InvariantKept(before, e);
    }
  }
}
