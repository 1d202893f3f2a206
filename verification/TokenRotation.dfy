/**
 Refresh-token rotation on the server.  Any number of refresh requests run at once, and their database statements
 interleave in any order.  The database isolates transactions as PostgreSQL does by default (READ COMMITTED): a
 statement sees the rows committed before it starts, an UPDATE waits for rows another transaction has updated, and
 what a transaction writes appears when it commits.
 */
module TokenRotation {
  import opened Common

  datatype Status = Active | Rotated | Revoked

  /** A row of refresh_tokens; its id is its position, and positions are in the order of commits. */
  datatype Token = Token(family: nat, status: Status, replacedBy: Option<nat>)

  type Tokens = seq<Token>

  /** The committed rows, those among them that an open rotation has updated, and the number of families so far. */
  datatype Table = Table(rows: Tokens, claims: set<nat>, families: nat)

  // ---------------------------------------------------------------- the repository

  /** create: a token in a family of its own. */
  function Created(t: Table): Table {
    t.(rows := t.rows + [Token(t.families, Active, None)], families := t.families + 1)
  }

  /** rotate up to its conditional UPDATE, which found the token active. */
  function Claimed(t: Table, id: nat): Table {
    t.(claims := t.claims + {id})
  }

  /** rotate from its INSERT to its commit: the successor and the update appear together. */
  function Committed(t: Table, id: nat): Table
    requires id < |t.rows|
  {
    var family := t.rows[id].family;
    t.(rows := t.rows[id := Token(family, Rotated, Some(|t.rows|))] + [Token(family, Active, None)],
       claims := t.claims - {id})
  }

  /** rotate gives up: its transaction rolls back. */
  function Released(t: Table, id: nat): Table {
    t.(claims := t.claims - {id})
  }

  /** revoke_family, whose UPDATE saw the first `upto` rows. */
  function FamilyRevoked(ts: Tokens, family: nat, upto: nat): Tokens {
    seq(|ts|, i requires 0 <= i < |ts| =>
      if i < upto && ts[i].family == family then ts[i].(status := Revoked) else ts[i])
  }

  /** No row the UPDATE of revoke_family saw is held by an open rotation. */
  predicate Unclaimed(t: Table, family: nat, upto: nat) {
    forall id | id in t.claims && id < |t.rows| && id < upto :: t.rows[id].family != family
  }

  /** revoke_by_jti */
  function OneRevoked(ts: Tokens, id: nat): Tokens
    requires id < |ts|
  {
    ts[id := ts[id].(status := Revoked)]
  }

  // ---------------------------------------------------------------- a refresh request

  datatype Stage =
    | Presented                 // before get_by_jti
    | Rotating                  // it read an active token
    | Claiming                  // its rotation is open
    | Revoking                  // it saw a reuse or lost a race, and is about to revoke the family
    | Sweeping(upto: nat)       // revoke_family has started and sees the first `upto` rows
    | Granted(successor: nat)
    | Replayed(upto: nat)       // rejected as a replay, the family revoked as far as was seen
    | Failed                    // rejected for another reason, or a server error

  datatype Request = Request(token: nat, stage: Stage)

  datatype Server = Server(table: Table, requests: seq<Request>)

  datatype Event =
    | Issue                     // a login: a token in a new family
    | Arrive(token: nat)        // a request presents a token
    | Read(request: nat)        // get_by_jti and the checks on what it read
    | Claim(request: nat)       // rotate, up to and including its UPDATE
    | Commit(request: nat)      // the rest of rotate
    | Sweep(request: nat)       // revoke_family starts
    | Revoke(request: nat)      // revoke_family is done
    | Fail(request: nat)        // any check or repository call fails; an open rotation rolls back
    | Logout(token: nat)        // revoke_by_jti

  /** Request `r` is there, and so is its token. */
  predicate Has(s: Server, r: nat) {
    r < |s.requests| && s.requests[r].token < |s.table.rows|
  }

  function FamilyOf(s: Server, r: nat): nat
    requires Has(s, r)
  {
    s.table.rows[s.requests[r].token].family
  }

  predicate Enabled(s: Server, e: Event) {
    match e
    case Issue => true
    case Arrive(t) => t < |s.table.rows|
    case Logout(t) => t < |s.table.rows| && t !in s.table.claims
    case Read(r) => Has(s, r) && s.requests[r].stage.Presented?
    case Claim(r) => Has(s, r) && s.requests[r].stage.Rotating? && s.requests[r].token !in s.table.claims
    case Commit(r) => Has(s, r) && s.requests[r].stage.Claiming?
    case Sweep(r) => Has(s, r) && s.requests[r].stage.Revoking?
    case Revoke(r) =>
      Has(s, r) && s.requests[r].stage.Sweeping? && Unclaimed(s.table, FamilyOf(s, r), s.requests[r].stage.upto)
    case Fail(r) => Has(s, r) && !(s.requests[r].stage.Granted? || s.requests[r].stage.Replayed?)
  }

  function Staged(s: Server, r: nat, stage: Stage): seq<Request>
    requires r < |s.requests|
  {
    s.requests[r := s.requests[r].(stage := stage)]
  }

  function Apply(s: Server, e: Event): Server
    requires Enabled(s, e)
  {
    match e
    case Issue => s.(table := Created(s.table))
    case Arrive(t) => s.(requests := s.requests + [Request(t, Presented)])
    case Read(r) =>
      s.(requests := Staged(s, r, if s.table.rows[s.requests[r].token].status.Active? then Rotating else Revoking))
    case Claim(r) =>
      if s.table.rows[s.requests[r].token].status.Active?
      then Server(Claimed(s.table, s.requests[r].token), Staged(s, r, Claiming))
      else s.(requests := Staged(s, r, Revoking))
    case Commit(r) => Server(Committed(s.table, s.requests[r].token), Staged(s, r, Granted(|s.table.rows|)))
    case Sweep(r) => s.(requests := Staged(s, r, Sweeping(|s.table.rows|)))
    case Revoke(r) =>
      var upto := s.requests[r].stage.upto;
      Server(s.table.(rows := FamilyRevoked(s.table.rows, FamilyOf(s, r), upto)), Staged(s, r, Replayed(upto)))
    case Fail(r) =>
      Server(if s.requests[r].stage.Claiming? then Released(s.table, s.requests[r].token) else s.table,
             Staged(s, r, Failed))
    case Logout(t) => s.(table := s.table.(rows := OneRevoked(s.table.rows, t)))
  }

  ghost predicate Leads(s: Server, es: seq<Event>, t: Server)
    decreases |es|
  {
    if es == [] then t == s else Enabled(s, es[0]) && Leads(Apply(s, es[0]), es[1..], t)
  }

  ghost predicate Follows(s: Server, t: Server) {
    exists es :: Leads(s, es, t)
  }

  const EMPTY := Server(Table([], {}, 0), [])

  ghost predicate Reachable(s: Server) {
    Follows(EMPTY, s)
  }

  // ---------------------------------------------------------------- the invariant

  /** No token of this family can be exchanged. */
  ghost predicate Dead(ts: Tokens, family: nat) {
    forall t | 0 <= t < |ts| && ts[t].family == family :: !ts[t].status.Active?
  }

  /** All tokens of this family before row `upto` are marked as revoked. */
  ghost predicate RevokedBefore(ts: Tokens, family: nat, upto: nat) {
    forall t | 0 <= t < |ts| && t < upto && ts[t].family == family :: ts[t].status.Revoked?
  }

  /** Only the newest token of a family may be active. */
  ghost predicate NewestActive(ts: Tokens) {
    forall t, u | 0 <= t < u < |ts| && ts[t].family == ts[u].family :: !ts[t].status.Active?
  }

  /** A token has a successor, later in its own family, exactly if it was exchanged; no two share one. */
  ghost predicate Lineage(ts: Tokens) {
    && (forall t | 0 <= t < |ts| && ts[t].replacedBy.Some? ::
          && t < ts[t].replacedBy.value < |ts|
          && ts[ts[t].replacedBy.value].family == ts[t].family
          && !ts[t].status.Active?)
    && (forall t, u | 0 <= t < |ts| && 0 <= u < |ts|
                      && ts[t].replacedBy.Some? && ts[t].replacedBy == ts[u].replacedBy ::
          t == u)
  }

  /** Rows held by open rotations are active: nobody else can update them. */
  ghost predicate TableOk(t: Table) {
    && NewestActive(t.rows) && Lineage(t.rows)
    && (forall i | 0 <= i < |t.rows| :: t.rows[i].family < t.families)
    && (forall id | id in t.claims :: id < |t.rows| && t.rows[id].status.Active?)
  }

  /** A revocation of `token`'s family that saw `upto` rows saw the token and its successor, if it has one. */
  ghost predicate Saw(ts: Tokens, token: nat, upto: nat)
    requires token < |ts|
  {
    && token < upto <= |ts| && !ts[token].status.Active?
    && (ts[token].replacedBy.Some? ==> ts[token].replacedBy.value < upto)
  }

  ghost predicate RequestOk(t: Table, r: Request) {
    && r.token < |t.rows|
    && match r.stage
       case Claiming => r.token in t.claims
       case Revoking => !t.rows[r.token].status.Active?
       case Sweeping(upto) => Saw(t.rows, r.token, upto)
       case Granted(n) => t.rows[r.token].replacedBy == Some(n)
       case Replayed(upto) => Saw(t.rows, r.token, upto) && RevokedBefore(t.rows, t.rows[r.token].family, upto)
       case _ => true
  }

  /** No two open rotations are of one token. */
  ghost predicate Exclusive(s: Server) {
    forall q, r | 0 <= q < |s.requests| && 0 <= r < |s.requests| && s.requests[q].stage.Claiming?
                  && s.requests[r].stage.Claiming? && s.requests[q].token == s.requests[r].token :: q == r
  }

  /** Every row held by an open rotation is held for a request. */
  ghost predicate Owned(s: Server) {
    forall id | id in s.table.claims ::
      exists r :: 0 <= r < |s.requests| && s.requests[r] == Request(id, Claiming)
  }

  /** No token was superseded in two requests' names. */
  ghost predicate GrantedOnce(s: Server) {
    forall q, r | 0 <= q < |s.requests| && 0 <= r < |s.requests| && s.requests[q].stage.Granted?
                  && s.requests[r].stage.Granted? && s.requests[q].token == s.requests[r].token :: q == r
  }

  ghost predicate Invariant(s: Server) {
    && TableOk(s.table) && Exclusive(s) && Owned(s) && GrantedOnce(s)
    && forall r | 0 <= r < |s.requests| :: RequestOk(s.table, s.requests[r])
  }

  /** Tokens are never forgotten or moved, never come back to life, and once inactive keep their successor. */
  ghost predicate Ages(ts: Tokens, us: Tokens) {
    && |ts| <= |us|
    && (forall t | 0 <= t < |ts| ::
          && us[t].family == ts[t].family
          && (us[t].status.Active? ==> ts[t].status.Active?)
          && (ts[t].status.Revoked? ==> us[t].status.Revoked?)
          && (!ts[t].status.Active? ==> us[t].replacedBy == ts[t].replacedBy))
  }

  lemma TokensAge(s: Server, e: Event)
    requires Enabled(s, e)
    requires e.Commit? ==> s.table.rows[s.requests[e.request].token].status.Active?
    ensures Ages(s.table.rows, Apply(s, e).table.rows)
  {
  }

  lemma CommitKeepsLineage(ts: Tokens, us: Tokens, id: nat)
    requires Lineage(ts) && id < |ts| && ts[id].status.Active?
    requires us == ts[id := Token(ts[id].family, Rotated, Some(|ts|))] + [Token(ts[id].family, Active, None)]
    ensures Lineage(us)
  {
    assert forall t | 0 <= t < |ts| && t != id :: us[t] == ts[t];
  }

  lemma CommitKeepsTable(t: Table, id: nat)
    requires TableOk(t) && id in t.claims
    ensures TableOk(Committed(t, id))
  {
    var us := Committed(t, id).rows;
    assert forall i | 0 <= i < |t.rows| && i != id :: us[i] == t.rows[i];
    CommitKeepsLineage(t.rows, us, id);
  }

  lemma RevocationKeepsOrder(ts: Tokens, us: Tokens)
    requires NewestActive(ts) && Lineage(ts) && |us| == |ts|
    requires forall t | 0 <= t < |ts| :: us[t] == ts[t] || us[t] == ts[t].(status := Revoked)
    ensures NewestActive(us) && Lineage(us)
  {
  }

  lemma FamilyRevocationKeepsTable(t: Table, family: nat, upto: nat)
    requires TableOk(t) && Unclaimed(t, family, upto)
    ensures TableOk(t.(rows := FamilyRevoked(t.rows, family, upto)))
  {
    RevocationKeepsOrder(t.rows, FamilyRevoked(t.rows, family, upto));
  }

  lemma LogoutKeepsTable(t: Table, id: nat)
    requires TableOk(t) && id < |t.rows| && id !in t.claims
    ensures TableOk(t.(rows := OneRevoked(t.rows, id)))
  {
    RevocationKeepsOrder(t.rows, OneRevoked(t.rows, id));
  }

  lemma TableKept(s: Server, e: Event)
    requires Invariant(s) && Enabled(s, e)
    ensures TableOk(Apply(s, e).table)
  {
    match e {
      case Commit(r) =>
        assert RequestOk(s.table, s.requests[r]);
        CommitKeepsTable(s.table, s.requests[r].token);
      case Revoke(r) => FamilyRevocationKeepsTable(s.table, FamilyOf(s, r), s.requests[r].stage.upto);
      case Logout(t) => LogoutKeepsTable(s.table, t);
      case _ =>
    }
  }

  /** What is recorded of a request stays true as tokens age. */
  lemma RequestOkFrame(t: Table, t': Table, r: Request)
    requires RequestOk(t, r) && TableOk(t) && Ages(t.rows, t'.rows)
    requires r.stage.Claiming? ==> r.token in t'.claims
    requires r.stage.Granted? ==> !t.rows[r.token].status.Active?
    ensures RequestOk(t', r)
  {
  }

  lemma OwnStep(s: Server, e: Event, r: nat)
    requires Invariant(s) && Enabled(s, e) && r < |Apply(s, e).requests|
    requires r >= |s.requests| || Apply(s, e).requests[r] != s.requests[r]
    ensures RequestOk(Apply(s, e).table, Apply(s, e).requests[r])
  {
    if r < |s.requests| {
      assert RequestOk(s.table, s.requests[r]);
    }
  }

  /** Open rotations of other requests stay open. */
  lemma ClaimsKept(s: Server, e: Event, r: nat)
    requires Invariant(s) && Enabled(s, e) && r < |s.requests| && Apply(s, e).requests[r] == s.requests[r]
    requires s.requests[r].stage.Claiming?
    ensures s.requests[r].token in Apply(s, e).table.claims
  {
    assert RequestOk(s.table, s.requests[r]);
  }

  lemma ExclusiveKept(s: Server, e: Event)
    requires Invariant(s) && Enabled(s, e)
    ensures Exclusive(Apply(s, e))
  {
    if e.Claim? {
      forall q | 0 <= q < |s.requests| && s.requests[q].stage.Claiming?
        ensures s.requests[q].token != s.requests[e.request].token
      {
        assert RequestOk(s.table, s.requests[q]);
      }
    }
  }

  lemma OwnedKept(s: Server, e: Event)
    requires Invariant(s) && Enabled(s, e)
    ensures Owned(Apply(s, e))
  {
    var s' := Apply(s, e);
    forall id | id in s'.table.claims
      ensures exists r :: 0 <= r < |s'.requests| && s'.requests[r] == Request(id, Claiming)
    {
      if id in s.table.claims {
        var r :| 0 <= r < |s.requests| && s.requests[r] == Request(id, Claiming);
        assert s'.requests[r] == s.requests[r];
      } else {
        assert s'.requests[e.request] == Request(id, Claiming);
      }
    }
  }

  lemma GrantedOnceKept(s: Server, e: Event)
    requires Invariant(s) && Enabled(s, e)
    ensures GrantedOnce(Apply(s, e))
  {
    if e.Commit? {
      assert RequestOk(s.table, s.requests[e.request]);
      forall q | 0 <= q < |s.requests| && s.requests[q].stage.Granted?
        ensures s.requests[q].token != s.requests[e.request].token
      {
        assert RequestOk(s.table, s.requests[q]);
      }
    }
  }

  lemma InvariantKept(s: Server, e: Event)
    requires Invariant(s) && Enabled(s, e)
    ensures Invariant(Apply(s, e)) && Ages(s.table.rows, Apply(s, e).table.rows)
  {
    if e.Commit? {
      assert RequestOk(s.table, s.requests[e.request]);
    }
    TokensAge(s, e);
    TableKept(s, e);
    ExclusiveKept(s, e);
    OwnedKept(s, e);
    GrantedOnceKept(s, e);
    var s' := Apply(s, e);
    forall r | 0 <= r < |s'.requests|
      ensures RequestOk(s'.table, s'.requests[r])
    {
      if r < |s.requests| && s'.requests[r] == s.requests[r] {
        if s.requests[r].stage.Claiming? {
          ClaimsKept(s, e, r);
        }
        RequestOkFrame(s.table, s'.table, s.requests[r]);
      } else {
        OwnStep(s, e, r);
      }
    }
  }

  lemma AgesTransitive(ts: Tokens, us: Tokens, vs: Tokens)
    requires Ages(ts, us) && Ages(us, vs)
    ensures Ages(ts, vs)
  {
  }

  lemma {:induction false} RunKeepsInvariant(s: Server, es: seq<Event>, t: Server)
    requires Invariant(s) && Leads(s, es, t)
    ensures Invariant(t) && Ages(s.table.rows, t.table.rows)
    decreases |es|
  {
    if es != [] {
      var m := Apply(s, es[0]);
      InvariantKept(s, es[0]);
      RunKeepsInvariant(m, es[1..], t);
      AgesTransitive(s.table.rows, m.table.rows, t.table.rows);
    }
  }

  lemma ReachableInvariant(s: Server)
    requires Reachable(s)
    ensures Invariant(s)
  {
    var es :| Leads(EMPTY, es, s);
    RunKeepsInvariant(EMPTY, es, s);
  }

  // ---------------------------------------------------------------- exchanges

  /** In every interleaving a family has at most one token that can still be exchanged. */
  lemma OneActivePerFamily(s: Server, t: nat, u: nat)
    requires Reachable(s) && t < |s.table.rows| && u < |s.table.rows|
    requires s.table.rows[t].family == s.table.rows[u].family
    requires s.table.rows[t].status.Active? && s.table.rows[u].status.Active?
    ensures t == u
  {
    ReachableInvariant(s);
  }

  /** A token is exchanged at most once, and two tokens never for the same successor. */
  lemma ExchangedAtMostOnce(s: Server, q: nat, r: nat)
    requires Reachable(s) && q < |s.requests| && r < |s.requests|
    requires s.requests[q].stage.Granted? && s.requests[r].stage.Granted?
    ensures s.requests[q].token == s.requests[r].token <==> q == r
    ensures s.requests[q].stage.successor == s.requests[r].stage.successor <==> q == r
  {
    ReachableInvariant(s);
    assert RequestOk(s.table, s.requests[q]) && RequestOk(s.table, s.requests[r]);
  }

  // ---------------------------------------------------------------- revocations

  /** A dead family stays dead: nothing that happens later makes one of its tokens exchangeable. */
  lemma {:induction false} DeadForEver(s: Server, family: nat, es: seq<Event>, t: Server)
    requires Invariant(s) && family < s.table.families && Dead(s.table.rows, family) && Leads(s, es, t)
    ensures Dead(t.table.rows, family)
    decreases |es|
  {
    if es != [] {
      InvariantKept(s, es[0]);
      if es[0].Commit? {
        assert RequestOk(s.table, s.requests[es[0].request]);
      }
      DeadForEver(Apply(s, es[0]), family, es[1..], t);
    }
  }

  /**
   Once a replay is rejected its family is dead, and for ever, exactly when no token that the revocation could not
   see, because it was committed after the revocation began, is active.
   */
  lemma ReplayKillsIff(s: Server, r: nat)
    requires Reachable(s) && r < |s.requests| && s.requests[r].stage.Replayed?
    ensures Has(s, r)
    ensures
      var f, upto := FamilyOf(s, r), s.requests[r].stage.upto;
      && (Dead(s.table.rows, f) <==>
            forall t | upto <= t < |s.table.rows| && s.table.rows[t].family == f :: !s.table.rows[t].status.Active?)
      && (Dead(s.table.rows, f) <==> forall t :: Follows(s, t) ==> Dead(t.table.rows, f))
      && RevokedBefore(s.table.rows, f, upto)
  {
    ReachableInvariant(s);
    assert RequestOk(s.table, s.requests[r]);
    var f := FamilyOf(s, r);
    if Dead(s.table.rows, f) {
      forall t | Follows(s, t)
        ensures Dead(t.table.rows, f)
      {
        var es :| Leads(s, es, t);
        DeadForEver(s, f, es, t);
      }
    }
    assert Follows(s, s) by {
      assert Leads(s, [], s);
    }
  }

  /** No rotation in this family commits along the run. */
  ghost predicate NoCommit(s: Server, es: seq<Event>, family: nat)
    decreases |es|
  {
    es != [] ==>
      && Enabled(s, es[0])
      && (es[0].Commit? ==> FamilyOf(s, es[0].request) != family)
      && NoCommit(Apply(s, es[0]), es[1..], family)
  }

  lemma {:induction false} NothingAdded(s: Server, es: seq<Event>, t: Server, family: nat)
    requires Invariant(s) && Leads(s, es, t) && NoCommit(s, es, family) && family < s.table.families
    ensures |s.table.rows| <= |t.table.rows|
    ensures forall i | |s.table.rows| <= i < |t.table.rows| :: t.table.rows[i].family != family
    decreases |es|
  {
    if es != [] {
      var m := Apply(s, es[0]);
      InvariantKept(s, es[0]);
      NothingAdded(m, es[1..], t, family);
      RunKeepsInvariant(m, es[1..], t);
      assert forall i | |s.table.rows| <= i < |m.table.rows| :: m.table.rows[i].family != family;
    }
  }

  /** A revocation during which no rotation of the family commits kills the family. */
  lemma UndisturbedRevocationKills(s: Server, r: nat, es: seq<Event>, t: Server)
    requires Reachable(s) && Enabled(s, Sweep(r))
    requires Leads(Apply(s, Sweep(r)), es, t) && NoCommit(Apply(s, Sweep(r)), es, FamilyOf(s, r))
    requires r < |t.requests| && t.requests[r] == Request(s.requests[r].token, Sweeping(|s.table.rows|))
    requires Enabled(t, Revoke(r))
    ensures Dead(Apply(t, Revoke(r)).table.rows, FamilyOf(s, r))
  {
    ReachableInvariant(s);
    InvariantKept(s, Sweep(r));
    var m := Apply(s, Sweep(r));
    NothingAdded(m, es, t, FamilyOf(s, r));
    RunKeepsInvariant(m, es, t);
  }

  /**
   An open rotation overtakes the revocation: it is the only one the revocation waits for, and when it commits its
   successor is out of the revocation's sight and stays active.
   */
  lemma OpenRotationSurvives(s: Server, q: nat, r: nat)
    requires Reachable(s) && Enabled(s, Commit(q)) && Has(s, r) && s.requests[r].stage.Sweeping?
    requires FamilyOf(s, q) == FamilyOf(s, r)
    ensures
      var m := Apply(s, Commit(q));
      && Enabled(m, Revoke(r))
      && !Dead(Apply(m, Revoke(r)).table.rows, FamilyOf(s, r))
      && Apply(m, Revoke(r)).table.rows[|s.table.rows|] == Token(FamilyOf(s, r), Active, None)
      && Apply(m, Revoke(r)).requests[r].stage.Replayed?
  {
    ReachableInvariant(s);
    assert RequestOk(s.table, s.requests[q]) && RequestOk(s.table, s.requests[r]);
    var m := Apply(s, Commit(q));
    forall id | id in m.table.claims && id < s.requests[r].stage.upto
      ensures m.table.rows[id].family != FamilyOf(s, r)
    {
      assert id in s.table.claims && id != s.requests[q].token;
    }
    assert m.requests[r] == s.requests[r];
    var t := Apply(m, Revoke(r));
    assert t.table.rows[|s.table.rows|] == m.table.rows[|s.table.rows|];
  }

  /** A rotation of this family is open. */
  ghost predicate RotationOpen(s: Server, family: nat) {
    exists q: nat :: Enabled(s, Commit(q)) && FamilyOf(s, q) == family
  }

  /** A token of this family at row `upto` or later can be exchanged. */
  ghost predicate Escaped(ts: Tokens, family: nat, upto: nat) {
    exists t :: upto <= t < |ts| && ts[t].family == family && ts[t].status.Active?
  }

  /**
   A revocation that nothing has escaped so far, as when it begins, waits exactly as long as a rotation of the family
   is open, and leaves the family dead if it ends now.
   */
  lemma RevocationWaitsIffOpen(s: Server, r: nat)
    requires Reachable(s) && Has(s, r) && s.requests[r].stage.Sweeping?
    requires !Escaped(s.table.rows, FamilyOf(s, r), s.requests[r].stage.upto)
    ensures Enabled(s, Revoke(r)) <==> !RotationOpen(s, FamilyOf(s, r))
    ensures Enabled(s, Revoke(r)) ==> Dead(Apply(s, Revoke(r)).table.rows, FamilyOf(s, r))
  {
    ReachableInvariant(s);
    var f, upto := FamilyOf(s, r), s.requests[r].stage.upto;
    if !RotationOpen(s, f) {
      forall id | id in s.table.claims
        ensures s.table.rows[id].family != f
      {
        var q :| 0 <= q < |s.requests| && s.requests[q] == Request(id, Claiming);
        assert Enabled(s, Commit(q));
      }
    } else {
      var q: nat :| Enabled(s, Commit(q)) && FamilyOf(s, q) == f;
      assert RequestOk(s.table, s.requests[q]);
      assert !Unclaimed(s.table, f, upto);
    }
  }

  /** If instead the open rotation rolls back, the revocation can end and the family is dead. */
  lemma RolledBackRotationDies(s: Server, q: nat, r: nat)
    requires Reachable(s) && Enabled(s, Commit(q)) && Has(s, r) && s.requests[r].stage.Sweeping?
    requires FamilyOf(s, q) == FamilyOf(s, r) && !Escaped(s.table.rows, FamilyOf(s, r), s.requests[r].stage.upto)
    ensures
      var m := Apply(s, Fail(q));
      Enabled(m, Revoke(r)) && Dead(Apply(m, Revoke(r)).table.rows, FamilyOf(s, r))
  {
    ReachableInvariant(s);
    assert RequestOk(s.table, s.requests[q]);
    var m := Apply(s, Fail(q));
    assert m.requests[r] == s.requests[r];
    forall id | id in m.table.claims
      ensures m.table.rows[id].family != FamilyOf(s, r)
    {
      assert id in s.table.claims && id != s.requests[q].token;
    }
  }

  /** Nothing else revokes tokens of this family along the run. */
  ghost predicate NoOtherKill(s: Server, es: seq<Event>, family: nat)
    decreases |es|
  {
    es != [] ==>
      && Enabled(s, es[0])
      && (es[0].Revoke? ==> FamilyOf(s, es[0].request) != family)
      && (es[0].Logout? ==> s.table.rows[es[0].token].family != family)
      && NoOtherKill(Apply(s, es[0]), es[1..], family)
  }

  lemma EscapeStep(s: Server, e: Event, family: nat, upto: nat)
    requires Invariant(s) && Enabled(s, e) && upto <= |s.table.rows|
    requires e.Revoke? ==> FamilyOf(s, e.request) != family
    requires e.Logout? ==> s.table.rows[e.token].family != family
    requires Escaped(s.table.rows, family, upto) || (e.Commit? && FamilyOf(s, e.request) == family)
    ensures Escaped(Apply(s, e).table.rows, family, upto)
  {
    var ts, us := s.table.rows, Apply(s, e).table.rows;
    if e.Commit? && FamilyOf(s, e.request) == family {
      assert us[|ts|] == Token(family, Active, None);
    } else {
      var t :| upto <= t < |ts| && ts[t].family == family && ts[t].status.Active?;
      assert us[t] == ts[t];
    }
  }

  /** What has escaped, or escapes by a commit, is there at the end: exchanges only pass it on. */
  lemma {:induction false} EscapeLasts(s: Server, es: seq<Event>, t: Server, family: nat, upto: nat)
    requires Invariant(s) && Leads(s, es, t) && NoOtherKill(s, es, family) && upto <= |s.table.rows|
    requires Escaped(s.table.rows, family, upto) || !NoCommit(s, es, family)
    ensures Escaped(t.table.rows, family, upto)
    decreases |es|
  {
    if es != [] {
      InvariantKept(s, es[0]);
      if Escaped(s.table.rows, family, upto) || (es[0].Commit? && FamilyOf(s, es[0].request) == family) {
        EscapeStep(s, es[0], family, upto);
      }
      EscapeLasts(Apply(s, es[0]), es[1..], t, family, upto);
    }
  }

  /**
   Schedule by schedule: where nothing else revokes tokens of the family meanwhile, a revocation leaves it dead
   exactly when no rotation of the family commits between its start and its end.
   */
  lemma LoneRevocationKillsIff(s: Server, r: nat, es: seq<Event>, t: Server)
    requires Reachable(s) && Enabled(s, Sweep(r))
    requires Leads(Apply(s, Sweep(r)), es, t) && NoOtherKill(Apply(s, Sweep(r)), es, FamilyOf(s, r))
    requires r < |t.requests| && t.requests[r] == Request(s.requests[r].token, Sweeping(|s.table.rows|))
    requires Enabled(t, Revoke(r))
    ensures Dead(Apply(t, Revoke(r)).table.rows, FamilyOf(s, r)) <==>
            NoCommit(Apply(s, Sweep(r)), es, FamilyOf(s, r))
  {
    var m, f, upto := Apply(s, Sweep(r)), FamilyOf(s, r), |s.table.rows|;
    ReachableInvariant(s);
    InvariantKept(s, Sweep(r));
    RunKeepsInvariant(m, es, t);
    if NoCommit(m, es, f) {
      UndisturbedRevocationKills(s, r, es, t);
    } else {
      EscapeLasts(m, es, t, f, upto);
      var k :| upto <= k < |t.table.rows| && t.table.rows[k].family == f && t.table.rows[k].status.Active?;
      assert Apply(t, Revoke(r)).table.rows[k] == t.table.rows[k];
    }
  }

  lemma {:induction false} LeadsOneMore(s: Server, es: seq<Event>, t: Server, e: Event)
    requires Leads(s, es, t) && Enabled(t, e)
    ensures Leads(s, es + [e], Apply(t, e))
    decreases |es|
  {
    if es == [] {
      assert ([] + [e])[1..] == [];
    } else {
      LeadsOneMore(Apply(s, es[0]), es[1..], t, e);
      assert (es + [e])[1..] == es[1..] + [e];
    }
  }

  lemma ReachableStep(s: Server, e: Event)
    requires Reachable(s) && Enabled(s, e)
    ensures Reachable(Apply(s, e))
  {
    var es :| Leads(EMPTY, es, s);
    LeadsOneMore(EMPTY, es, s, e);
  }

  lemma FollowsStep(s: Server, m: Server, e: Event)
    requires Follows(s, m) && Enabled(m, e)
    ensures Follows(s, Apply(m, e))
  {
    var es :| Leads(s, es, m);
    LeadsOneMore(s, es, m, e);
  }

  lemma FollowsSelf(s: Server)
    ensures Follows(s, s)
  {
    assert Leads(s, [], s);
  }

  /** A new request can open a rotation of any active token that is not held. */
  lemma Exchange(s: Server, token: nat) returns (s': Server)
    requires token < |s.table.rows| && s.table.rows[token].status.Active? && token !in s.table.claims
    ensures Follows(s, s') && (Reachable(s) ==> Reachable(s'))
    ensures s'.table == Claimed(s.table, token) && s'.requests == s.requests + [Request(token, Claiming)]
  {
    var r := |s.requests|;
    var s1 := Apply(s, Arrive(token));
    var s2 := Apply(s1, Read(r));
    s' := Apply(s2, Claim(r));
    FollowsSelf(s);
    FollowsStep(s, s, Arrive(token));
    FollowsStep(s, s1, Read(r));
    FollowsStep(s, s2, Claim(r));
    if Reachable(s) {
      ReachableStep(s, Arrive(token));
      ReachableStep(s1, Read(r));
      ReachableStep(s2, Claim(r));
    }
  }

  /** Where an active token is left when a revocation begins, some schedule lets the family outlive it. */
  lemma ActiveCanEscape(s: Server, r: nat, k: nat) returns (t: Server)
    requires Reachable(s) && Has(s, r) && s.requests[r].stage.Sweeping?
    requires k < |s.table.rows| && s.table.rows[k].family == FamilyOf(s, r) && s.table.rows[k].status.Active?
    ensures Follows(s, t) && r < |t.requests| && t.requests[r].stage.Replayed?
    ensures !Dead(t.table.rows, FamilyOf(s, r))
  {
    ReachableInvariant(s);
    var m, q := s, 0;
    FollowsSelf(s);
    if k in s.table.claims {
      q :| 0 <= q < |s.requests| && s.requests[q] == Request(k, Claiming);
    } else {
      m := Exchange(s, k);
      q := |s.requests|;
    }
    OpenRotationSurvives(m, q, r);
    FollowsStep(s, m, Commit(q));
    FollowsStep(s, Apply(m, Commit(q)), Revoke(r));
    t := Apply(Apply(m, Commit(q)), Revoke(r));
  }

  /**
   The condition for the guarantee itself, to be read off before the revocation starts: it leaves the family dead
   under every schedule exactly when the family was dead already.  An active token may be exchanged in time.
   */
  lemma RevocationIsSureIff(s: Server, r: nat)
    requires Reachable(s) && Enabled(s, Sweep(r))
    ensures Dead(s.table.rows, FamilyOf(s, r)) <==>
            forall t :: Follows(Apply(s, Sweep(r)), t) && r < |t.requests| && t.requests[r].stage.Replayed? ==>
                          Dead(t.table.rows, FamilyOf(s, r))
  {
    var m, f := Apply(s, Sweep(r)), FamilyOf(s, r);
    ReachableInvariant(s);
    InvariantKept(s, Sweep(r));
    ReachableStep(s, Sweep(r));
    if Dead(s.table.rows, f) {
      forall t | Follows(m, t)
        ensures Dead(t.table.rows, f)
      {
        var es :| Leads(m, es, t);
        DeadForEver(m, f, es, t);
      }
    } else {
      var k :| 0 <= k < |s.table.rows| && s.table.rows[k].family == f && s.table.rows[k].status.Active?;
      var t := ActiveCanEscape(m, r, k);
    }
  }

  /** A token is exchanged, and its successor is being exchanged in turn. */
  lemma ExchangedTwice() returns (s: Server)
    ensures Reachable(s) && s.requests == [Request(0, Granted(1)), Request(1, Claiming)]
    ensures s.table == Table([Token(0, Rotated, Some(1)), Token(0, Active, None)], {1}, 1)
  {
    FollowsSelf(EMPTY);
    ReachableStep(EMPTY, Issue);
    var s1 := Exchange(Apply(EMPTY, Issue), 0);
    ReachableStep(s1, Commit(0));
    s := Exchange(Apply(s1, Commit(0)), 1);
  }

  /**
   So a replay can be rejected and its family live on.  A token is exchanged; its successor is being exchanged in
   turn when the first token is presented again; the revocation starts, the second exchange commits, and the
   revocation ends without having seen the token it made.
   */
  lemma RevocationCanMiss() returns (s: Server)
    ensures Reachable(s) && |s.requests| == 3 && |s.table.rows| == 3
    ensures s.requests[0] == Request(0, Granted(1)) && s.requests[1] == Request(1, Granted(2))
    ensures s.requests[2] == Request(0, Replayed(2))
    ensures s.table.rows[2].status.Active? && s.table.rows[2].family == s.table.rows[0].family
  {
    var s2 := ExchangedTwice();
    ReachableStep(s2, Arrive(0));
    var s3 := Apply(s2, Arrive(0));
    ReachableStep(s3, Read(2));
    var s4 := Apply(s3, Read(2));
    ReachableStep(s4, Sweep(2));
    var s5 := Apply(s4, Sweep(2));
    OpenRotationSurvives(s5, 1, 2);
    ReachableStep(s5, Commit(1));
    var s6 := Apply(s5, Commit(1));
    ReachableStep(s6, Revoke(2));
    s := Apply(s6, Revoke(2));
  }

  /**
   When the same token is presented twice and neither request fails for another reason, not both succeed, and the
   token granted to the other one is dead too.  The whole family is dead exactly when no later token escaped the
   revocation.
   */
  lemma PresentedTwice(s: Server, q: nat, r: nat)
    requires Reachable(s) && q < |s.requests| && r < |s.requests|
    requires q != r && s.requests[q].token == s.requests[r].token
    requires s.requests[q].stage.Granted? || s.requests[q].stage.Replayed?
    requires s.requests[r].stage.Granted? || s.requests[r].stage.Replayed?
    ensures s.requests[q].stage.Replayed? || s.requests[r].stage.Replayed?
    ensures s.requests[q].stage.Granted? ==>
              var n := s.requests[q].stage.successor;
              n < |s.table.rows| && !s.table.rows[n].status.Active?
    ensures s.requests[r].stage.Replayed? ==>
              && Has(s, r)
              && (Dead(s.table.rows, FamilyOf(s, r)) <==>
                    forall t | s.requests[r].stage.upto <= t < |s.table.rows|
                               && s.table.rows[t].family == FamilyOf(s, r) ::
                      !s.table.rows[t].status.Active?)
  {
    ReachableInvariant(s);
    assert RequestOk(s.table, s.requests[q]) && RequestOk(s.table, s.requests[r]);
    if s.requests[r].stage.Replayed? {
      ReplayKillsIff(s, r);
    }
  }

  /**
   Logging out with a token revokes that token only: the family dies exactly when no other token of it is active,
   so logging out with one that was already rotated ends nothing.
   */
  lemma LogoutKillsIff(s: Server, t: nat)
    requires Reachable(s) && Enabled(s, Logout(t))
    ensures Dead(Apply(s, Logout(t)).table.rows, s.table.rows[t].family) <==>
            forall u | 0 <= u < |s.table.rows| && s.table.rows[u].family == s.table.rows[t].family
                       && s.table.rows[u].status.Active? :: u == t
    ensures Apply(s, Logout(t)).table.rows[t].status.Revoked?
  {
    ReachableInvariant(s);
    var ts := Apply(s, Logout(t)).table.rows;
    assert ts[t].family == s.table.rows[t].family;
    assert forall u | 0 <= u < |s.table.rows| && u != t :: ts[u] == s.table.rows[u];
  }

  // ---------------------------------------------------------------- how requests end

  /** The request has been answered. */
  predicate Ended(r: Request) {
    r.stage.Granted? || r.stage.Replayed? || r.stage.Failed?
  }

  /** Nothing goes wrong along the run: no check and no repository call fails. */
  predicate Faultless(es: seq<Event>) {
    forall e | e in es :: !e.Fail?
  }

  /** A request keeps its token, and once answered does not change. */
  lemma RequestsAreKept(s: Server, e: Event, r: nat)
    requires Enabled(s, e) && r < |s.requests|
    ensures r < |Apply(s, e).requests| && Apply(s, e).requests[r].token == s.requests[r].token
    ensures Ended(s.requests[r]) && !e.Fail? ==> Apply(s, e).requests[r] == s.requests[r]
  {
  }

  /** Only a failure makes a request fail. */
  lemma {:induction false} NoFaultNoFailure(s: Server, es: seq<Event>, t: Server)
    requires Leads(s, es, t) && Faultless(es)
    requires forall r | 0 <= r < |s.requests| :: !s.requests[r].stage.Failed?
    ensures forall r | 0 <= r < |t.requests| :: !t.requests[r].stage.Failed?
    decreases |es|
  {
    if es != [] {
      NoFaultNoFailure(Apply(s, es[0]), es[1..], t);
    }
  }

  /**
   When several requests present one token and nothing goes wrong, at most one of those that have been answered was
   granted, and every other one was rejected as a replay after revoking the family.
   */
  lemma RaceHasOneWinner(es: seq<Event>, s: Server, q: nat, r: nat)
    requires Leads(EMPTY, es, s) && Faultless(es) && q < |s.requests| && r < |s.requests| && q != r
    requires s.requests[q].token == s.requests[r].token && Ended(s.requests[q]) && Ended(s.requests[r])
    ensures s.requests[q].stage.Replayed? || s.requests[r].stage.Replayed?
    ensures s.requests[q].stage.Granted? || s.requests[q].stage.Replayed?
    ensures s.requests[r].stage.Granted? || s.requests[r].stage.Replayed?
  {
    NoFaultNoFailure(EMPTY, es, s);
    assert Reachable(s);
    PresentedTwice(s, q, r);
  }

  /** On its way to being rejected as a replay. */
  predicate Losing(r: Request) {
    r.stage.Presented? || r.stage.Rotating? || r.stage.Revoking? || r.stage.Sweeping? || r.stage.Replayed?
  }

  lemma LosingStep(s: Server, e: Event, r: nat)
    requires Invariant(s) && Enabled(s, e) && !e.Fail? && r < |s.requests|
    requires Losing(s.requests[r]) && !s.table.rows[s.requests[r].token].status.Active?
    ensures Losing(Apply(s, e).requests[r])
    ensures Apply(s, e).requests[r].stage != s.requests[r].stage ==>
              var stage := Apply(s, e).requests[r].stage;
              stage.Revoking? || stage.Sweeping? || stage.Replayed?
  {
    assert RequestOk(s.table, s.requests[r]);
  }

  /** A request whose token is no longer active when it reads it, or when it tries to rotate it, ends up as a replay. */
  lemma {:induction false} LateIsReplay(s: Server, es: seq<Event>, t: Server, r: nat)
    requires Invariant(s) && Leads(s, es, t) && Faultless(es) && r < |s.requests| && Losing(s.requests[r])
    requires s.requests[r].token < |s.table.rows| && !s.table.rows[s.requests[r].token].status.Active?
    ensures r < |t.requests| && Losing(t.requests[r]) && (Ended(t.requests[r]) ==> t.requests[r].stage.Replayed?)
    decreases |es|
  {
    if es != [] {
      InvariantKept(s, es[0]);
      LosingStep(s, es[0], r);
      RequestsAreKept(s, es[0], r);
      LateIsReplay(Apply(s, es[0]), es[1..], t, r);
    }
  }

  /** The next step of a request, if nothing goes wrong. */
  function Next(r: Request, i: nat): Event
    requires !Ended(r)
  {
    match r.stage
    case Presented => Read(i)
    case Rotating => Claim(i)
    case Claiming => Commit(i)
    case Revoking => Sweep(i)
    case Sweeping(_) => Revoke(i)
  }

  /** An unanswered request can take its next step, or waits for an open rotation of its family, which can. */
  lemma NobodyIsStuck(s: Server, i: nat)
    requires Reachable(s) && i < |s.requests| && !Ended(s.requests[i])
    ensures Has(s, i) && (Enabled(s, Next(s.requests[i], i)) || RotationOpen(s, FamilyOf(s, i)))
    ensures Enabled(s, Next(s.requests[i], i)) ==>
              Apply(s, Next(s.requests[i], i)).requests[i].stage != s.requests[i].stage
  {
    ReachableInvariant(s);
    assert RequestOk(s.table, s.requests[i]);
    if !Enabled(s, Next(s.requests[i], i)) {
      var f := FamilyOf(s, i);
      var id :| id in s.table.claims && id < |s.table.rows| && s.table.rows[id].family == f;
      var q :| 0 <= q < |s.requests| && s.requests[q] == Request(id, Claiming);
      assert Enabled(s, Commit(q));
    }
  }

  /** An unanswered request can fail at any point, and a token that is not being exchanged can be logged out. */
  lemma AnythingCanFail(s: Server, i: nat, t: nat)
    requires Reachable(s)
    ensures i < |s.requests| && !Ended(s.requests[i]) ==>
              Enabled(s, Fail(i)) && Apply(s, Fail(i)).requests[i].stage.Failed?
    ensures t < |s.table.rows| ==> Enabled(s, Logout(t)) || RotationOpen(s, s.table.rows[t].family)
  {
    ReachableInvariant(s);
    if i < |s.requests| {
      assert RequestOk(s.table, s.requests[i]);
    }
    if t in s.table.claims {
      var q :| 0 <= q < |s.requests| && s.requests[q] == Request(t, Claiming);
      assert Enabled(s, Commit(q));
    }
  }
}
