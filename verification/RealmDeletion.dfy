/** What deletes do in the realm data graph: chains, blocking, and the footprints of clients and users. */
module RealmDeletion {
  import opened Common
  import opened Referential
  import opened RealmSchema

  /** The declared edges are acyclic and no deeper than three, so no CASCADE chain is longer. */
  lemma ChainsHaveAtMostThreeEdges(v: Version, db: Database, X: set<Reference>, r: Reference)
    requires X <= db.Keys
    ensures r in Doomed(Graph(v), db, X) <==>
            exists chain :: Chain(Graph(v), db, X, chain) && chain[|chain| - 1] == r && |chain| - 1 <= 3
    ensures Doomed(Graph(v), db, X) == Sweep(Graph(v), db, Rank, 4, X)
  {
    GraphIsRanked(v);
    DoomedIffChain(Graph(v), db, Rank, 4, X, r);
    SweepIsDoomed(Graph(v), db, Rank, 4, X);
    forall chain | Chain(Graph(v), db, X, chain)
      ensures |chain| - 1 <= 3 <==> |chain| <= 4
    {
    }
  }

  /** Over every history from a good state, and in particular from the empty database. */
  lemma HistoriesKeepTheGraphGood(v: Version, stmts: seq<Statement<Table, Column>>)
    ensures Good(Graph(v), ExecuteAll(Graph(v), map[], stmts))
  {
    GraphIsWellFormed(v);
    HistoriesStayGood(Graph(v), map[], stmts);
  }

  /** Column `c` of row `r` holds the key of `p`. */
  ghost predicate RefersBy(v: Version, db: Database, r: Reference, c: Column, p: Reference) {
    r in db && Target(Graph(v), r.table, db[r], c) == Some(p)
  }

  /** The user whose client_id names the client. */
  ghost predicate ServiceAccount(v: Version, db: Database, u: Reference, client: Reference) {
    u.table == Users && RefersBy(v, db, u, ClientId, client)
  }

  /** In a good database a client has at most one service-account user. */
  lemma OneServiceAccount(v: Version, db: Database, client: Reference, u: Reference, w: Reference)
    requires Good(Graph(v), db) && client.table == Clients
    requires ServiceAccount(v, db, u, client) && ServiceAccount(v, db, w, client)
    ensures u == w
  {
    assert Graph(v).unique(Users, ClientId);
  }

  // ---------------------------------------------------------------- blocking

  /** Token `t` is a refresh token of user `u`. */
  ghost predicate TokenOf(v: Version, db: Database, t: Reference, u: Reference) {
    t in db && t.table == RefreshTokens && Target(Graph(v), t.table, db[t], UserId) == Some(u)
  }

  lemma RefreshTokensAreNeverCascaded(v: Version, db: Database, X: set<Reference>, t: Reference)
    requires v.Entities? && X <= db.Keys && t.table == RefreshTokens
    ensures t in Doomed(Graph(v), db, X) <==> t in X
  {
    DoomedIsLeast(Graph(v), db, X);
    var D := set r | r in db && (r in X || r.table != RefreshTokens);
    assert Closed(Graph(v), db, D);
  }

  lemma UsersNoAction(v: Version, t: Table)
    ensures Declared(v, t, UserId).Some? && Declared(v, t, UserId).value.onDelete == NoAction <==>
            v.Entities? && t == RefreshTokens
  {
  }

  lemma OneNoActionKey(v: Version, t: Table, c: Column)
    ensures Declared(v, t, c).Some? && Declared(v, t, c).value.onDelete == NoAction <==>
            v.Entities? && t == RefreshTokens && c == UserId
  {
    if c == UserId {
      UsersNoAction(v, t);
    }
  }

  /**
   As the entities declare it, only a refresh token can block a delete, and does so exactly when its user
   is to be removed and it is not itself a target.  After the migrations nothing blocks.
   */
  lemma BlockedIffRefreshToken(v: Version, db: Database, X: set<Reference>)
    requires X <= db.Keys
    ensures Delete(Graph(v), db, X).Rejected? <==>
            v.Entities? && exists t, u :: t !in X && TokenOf(v, db, t, u) && u in Doomed(Graph(v), db, X)
  {
    var gone := Doomed(Graph(v), db, X);
    forall t, c | t !in gone && Hits(Graph(v), db, t, c, NoAction, gone)
      ensures v.Entities? && t !in X && exists u :: TokenOf(v, db, t, u) && u in gone
    {
      DoomedIsLeast(Graph(v), db, X);
      OneNoActionKey(v, t.table, c);
      assert TokenOf(v, db, t, Target(Graph(v), t.table, db[t], UserId).value);
    }
    forall t, u | v.Entities? && t !in X && TokenOf(v, db, t, u) && u in gone
      ensures ViolatesNoAction(Graph(v), db, gone)
    {
      RefreshTokensAreNeverCascaded(v, db, X, t);
      assert Hits(Graph(v), db, t, UserId, NoAction, gone);
    }
  }

  // ---------------------------------------------------------------- deleting a client

  /** `r` refers to `p` by a CASCADE key. */
  ghost predicate Under(v: Version, db: Database, r: Reference, p: Reference) {
    exists c :: Hits(Graph(v), db, r, c, Cascade, {p})
  }

  /** Rows of this table that refer to a user by user_id do not outlive it. */
  predicate GoesWithUser(v: Version, t: Table) {
    if v.Entities? then t != RefreshTokens else t != AuthSessions && t != CompassFlows
  }

  /** What a client delete removes, in terms of what the columns hold. */
  ghost predicate InClientFootprint(v: Version, db: Database, client: Reference, r: Reference) {
    || r == client
    || RefersBy(v, db, r, ClientId, client)
    || (GoesWithUser(v, r.table) && exists u :: ServiceAccount(v, db, u, client) && RefersBy(v, db, r, UserId, u))
    || (exists o: Reference ::
          o.table == Roles && RefersBy(v, db, o, ClientId, client) && RefersBy(v, db, r, RoleId, o))
  }

  /** The same in terms of the CASCADE keys. */
  ghost predicate InCascadeFootprint(v: Version, db: Database, client: Reference, r: Reference) {
    || r == client
    || Under(v, db, r, client)
    || (exists u: Reference :: u.table == Users && Under(v, db, u, client) && Under(v, db, r, u))
    || (exists o: Reference :: o.table == Roles && Under(v, db, o, client) && Under(v, db, r, o))
  }

  lemma ClientKeys(v: Version, t: Table)
    requires Declared(v, t, ClientId).Some?
    ensures Declared(v, t, ClientId).value.onDelete == Cascade
  {
  }

  lemma UserKeys(v: Version, t: Table)
    requires Declared(v, t, UserId).Some?
    ensures Declared(v, t, UserId).value.onDelete == Cascade <==> GoesWithUser(v, t)
  {
  }

  lemma UnderBy(v: Version, db: Database, r: Reference, p: Reference)
    requires Under(v, db, r, p)
    ensures exists c ::
              Parent(c) == p.table && RefersBy(v, db, r, c, p) && Declared(v, r.table, c).value.onDelete == Cascade
  {
    var c :| Hits(Graph(v), db, r, c, Cascade, {p});
    ParentOf(v, r.table, c);
    assert RefersBy(v, db, r, c, p);
  }

  /** Whatever refers to a client by client_id goes with it. */
  lemma UnderClientIff(v: Version, db: Database, r: Reference, client: Reference)
    requires client.table == Clients
    ensures Under(v, db, r, client) <==> RefersBy(v, db, r, ClientId, client)
  {
    if Under(v, db, r, client) {
      UnderBy(v, db, r, client);
    }
    if RefersBy(v, db, r, ClientId, client) {
      ClientKeys(v, r.table);
      assert Hits(Graph(v), db, r, ClientId, Cascade, {client});
    }
  }

  /** So does whatever refers to a user by user_id, but for the tables that outlive users. */
  lemma UnderUserIff(v: Version, db: Database, r: Reference, user: Reference)
    requires user.table == Users
    ensures Under(v, db, r, user) <==> RefersBy(v, db, r, UserId, user) && GoesWithUser(v, r.table)
  {
    if Under(v, db, r, user) {
      UnderBy(v, db, r, user);
      UserKeys(v, r.table);
    }
    if RefersBy(v, db, r, UserId, user) && GoesWithUser(v, r.table) {
      UserKeys(v, r.table);
      assert Hits(Graph(v), db, r, UserId, Cascade, {user});
    }
  }

  lemma UnderRoleIff(v: Version, db: Database, r: Reference, role: Reference)
    requires role.table == Roles
    ensures Under(v, db, r, role) <==> RefersBy(v, db, r, RoleId, role)
  {
    if Under(v, db, r, role) {
      UnderBy(v, db, r, role);
    }
    if RefersBy(v, db, r, RoleId, role) {
      assert Hits(Graph(v), db, r, RoleId, Cascade, {role});
    }
  }

  lemma FootprintByColumns(v: Version, db: Database, client: Reference, r: Reference)
    requires client.table == Clients
    ensures InClientFootprint(v, db, client, r) <==> InCascadeFootprint(v, db, client, r)
  {
    forall q
      ensures Under(v, db, q, client) <==> RefersBy(v, db, q, ClientId, client)
    {
      UnderClientIff(v, db, q, client);
    }
    forall u: Reference | u.table == Users
      ensures Under(v, db, r, u) <==> RefersBy(v, db, r, UserId, u) && GoesWithUser(v, r.table)
    {
      UnderUserIff(v, db, r, u);
    }
    forall o: Reference | o.table == Roles
      ensures Under(v, db, r, o) <==> RefersBy(v, db, r, RoleId, o)
    {
      UnderRoleIff(v, db, r, o);
    }
  }

  /** Which tables are parents of a CASCADE key, and which have one to `Clients`. */
  lemma CascadeParents(v: Version, t: Table, c: Column)
    requires Declared(v, t, c).Some? && Declared(v, t, c).value.onDelete == Cascade
    ensures Declared(v, t, c).value.parent in
              {Realms, Clients, Users, Roles, IdentityProviders, UserFederationProviders, ClientScopes, CompassFlows,
               Webhooks}
    ensures Declared(v, t, c).value.parent == Clients ==>
              t in {Users, Roles, AuthSessions, BrokerAuthSessions, ClientScopeMappings, RedirectUris,
                    PostLogoutRedirectUris}
    ensures Declared(v, t, c).value.parent in {Users, Roles} ==> Rank(t) == 3
  {
  }

  lemma UnderTables(v: Version, db: Database, q: Reference, p: Reference)
    requires Under(v, db, q, p)
    ensures q in db
    ensures p.table in {Realms, Clients, Users, Roles, IdentityProviders, UserFederationProviders, ClientScopes,
                        CompassFlows, Webhooks}
    ensures p.table == Clients ==>
              q.table in {Users, Roles, AuthSessions, BrokerAuthSessions, ClientScopeMappings, RedirectUris,
                          PostLogoutRedirectUris}
    ensures p.table in {Users, Roles} ==> Rank(q.table) == 3
  {
    var c :| Hits(Graph(v), db, q, c, Cascade, {p});
    CascadeParents(v, q.table, c);
  }

  lemma NothingUnderRankThree(v: Version, db: Database, x: Reference, p: Reference, q: Reference)
    requires x.table in {Users, Roles} && Under(v, db, p, x)
    ensures !Under(v, db, q, p)
  {
    UnderTables(v, db, p, x);
    if Under(v, db, q, p) {
      UnderTables(v, db, q, p);
      assert false;
    }
  }

  lemma FootprintIsClosed(v: Version, db: Database, client: Reference, p: Reference, q: Reference)
    requires client.table == Clients && InCascadeFootprint(v, db, client, p) && Under(v, db, q, p)
    ensures InCascadeFootprint(v, db, client, q)
  {
    if p != client {
      if Under(v, db, p, client) {
        UnderTables(v, db, q, p);
        UnderTables(v, db, p, client);
      } else {
        forall x: Reference | x.table in {Users, Roles} && Under(v, db, p, x)
          ensures false
        {
          NothingUnderRankThree(v, db, x, p, q);
        }
        assert false;
      }
    }
  }

  lemma UnderDoomed(v: Version, db: Database, X: set<Reference>)
    requires X <= db.Keys
    ensures forall r, p :: p in Doomed(Graph(v), db, X) && Under(v, db, r, p) ==> r in Doomed(Graph(v), db, X)
  {
    DoomedIsLeast(Graph(v), db, X);
    forall r, p | p in Doomed(Graph(v), db, X) && Under(v, db, r, p)
      ensures r in Doomed(Graph(v), db, X)
    {
      var c :| Hits(Graph(v), db, r, c, Cascade, {p});
      assert Hits(Graph(v), db, r, c, Cascade, Doomed(Graph(v), db, X));
    }
  }

  lemma CascadeFootprint(v: Version, db: Database, client: Reference, r: Reference)
    requires client in db && client.table == Clients
    ensures r in Doomed(Graph(v), db, {client}) <==> InCascadeFootprint(v, db, client, r)
  {
    DoomedIsLeast(Graph(v), db, {client});
    UnderDoomed(v, db, {client});
    var D := set q | q in db && InCascadeFootprint(v, db, client, q);
    forall q, c | Hits(Graph(v), db, q, c, Cascade, D)
      ensures q in D
    {
      var p := Target(Graph(v), q.table, db[q], c).value;
      assert Hits(Graph(v), db, q, c, Cascade, {p});
      FootprintIsClosed(v, db, client, p, q);
    }
    assert Closed(Graph(v), db, D);
  }

  /** A client delete removes the client, what names it, and what names its service account or one of its roles. */
  lemma ClientFootprint(v: Version, db: Database, client: Reference, r: Reference)
    requires client in db && client.table == Clients
    ensures r in Doomed(Graph(v), db, {client}) <==> InClientFootprint(v, db, client, r)
  {
    CascadeFootprint(v, db, client, r);
    FootprintByColumns(v, db, client, r);
  }

  lemma UserColumns(v: Version, db: Database, u: Reference, p: Reference)
    requires u.table == Users
    ensures !RefersBy(v, db, u, UserId, p) && !RefersBy(v, db, u, RoleId, p)
  {
  }

  /** A user that goes with a client is its service account. */
  lemma UserGoesWithClientIff(v: Version, db: Database, client: Reference, u: Reference)
    requires client in db && client.table == Clients && u.table == Users
    ensures u in Doomed(Graph(v), db, {client}) <==> ServiceAccount(v, db, u, client)
  {
    ClientFootprint(v, db, client, u);
    forall p
      ensures !RefersBy(v, db, u, UserId, p) && !RefersBy(v, db, u, RoleId, p)
    {
      UserColumns(v, db, u, p);
    }
  }

  /** At most one user goes with a client, and it is that client's service account. */
  lemma ClientDeleteRemovesAtMostOneUser(v: Version, db: Database, client: Reference, u: Reference, w: Reference)
    requires Good(Graph(v), db) && client in db && client.table == Clients
    requires u.table == Users && u in Doomed(Graph(v), db, {client})
    requires w.table == Users && w in Doomed(Graph(v), db, {client})
    ensures u == w && ServiceAccount(v, db, u, client)
  {
    UserGoesWithClientIff(v, db, client, u);
    UserGoesWithClientIff(v, db, client, w);
    OneServiceAccount(v, db, client, u, w);
  }

  lemma TokenOfUser(v: Version, db: Database, t: Reference, u: Reference)
    requires TokenOf(v, db, t, u)
    ensures u.table == Users
  {
  }

  /** A client delete is blocked exactly when its service account holds a refresh token. */
  lemma ClientDeleteBlockedIff(v: Version, db: Database, client: Reference)
    requires client in db && client.table == Clients
    ensures Delete(Graph(v), db, {client}).Rejected? <==>
            v.Entities? && exists u, t :: ServiceAccount(v, db, u, client) && TokenOf(v, db, t, u)
  {
    BlockedIffRefreshToken(v, db, {client});
    forall u, t | TokenOf(v, db, t, u)
      ensures t !in {client} && (u in Doomed(Graph(v), db, {client}) <==> ServiceAccount(v, db, u, client))
    {
      TokenOfUser(v, db, t, u);
      UserGoesWithClientIff(v, db, client, u);
    }
  }

  // ---------------------------------------------------------------- deleting a user

  lemma NothingUnderDependants(v: Version, db: Database, user: Reference, q: Reference, p: Reference)
    requires user.table == Users && Under(v, db, q, p) && (p == user || Under(v, db, p, user))
    ensures p == user
  {
    if p != user {
      NothingUnderRankThree(v, db, user, p, q);
    }
  }

  /** A user delete removes the user and its direct dependants, which have none of their own. */
  lemma UserFootprint(v: Version, db: Database, user: Reference, r: Reference)
    requires user in db && user.table == Users
    ensures r in Doomed(Graph(v), db, {user}) <==>
            r == user || (RefersBy(v, db, r, UserId, user) && GoesWithUser(v, r.table))
  {
    UnderUserIff(v, db, r, user);
    DoomedIsLeast(Graph(v), db, {user});
    UnderDoomed(v, db, {user});
    var D := set q | q in db && (q == user || Under(v, db, q, user));
    forall q, c | Hits(Graph(v), db, q, c, Cascade, D)
      ensures q in D
    {
      var p := Target(Graph(v), q.table, db[q], c).value;
      assert Hits(Graph(v), db, q, c, Cascade, {p});
      NothingUnderDependants(v, db, user, q, p);
    }
    assert Closed(Graph(v), db, D);
  }

  /** A user delete is blocked exactly when the user holds a refresh token. */
  lemma UserDeleteBlockedIff(v: Version, db: Database, user: Reference)
    requires user in db && user.table == Users
    ensures Delete(Graph(v), db, {user}).Rejected? <==> v.Entities? && exists t :: TokenOf(v, db, t, user)
  {
    DoomedIsLeast(Graph(v), db, {user});
    BlockedIffRefreshToken(v, db, {user});
    if Delete(Graph(v), db, {user}).Rejected? {
      var t, u :| t !in {user} && TokenOf(v, db, t, u) && u in Doomed(Graph(v), db, {user});
      UserFootprint(v, db, user, u);
      TokenOfUser(v, db, t, u);
      UserColumns(v, db, u, user);
    }
    forall t | v.Entities? && TokenOf(v, db, t, user)
      ensures t !in {user} && user in Doomed(Graph(v), db, {user})
    {
    }
  }

  // ---------------------------------------------------------------- broker sessions

  /** A row other than a target is removed exactly when one of its own CASCADE keys reaches a removed row. */
  lemma DoomedByOwnKey(v: Version, db: Database, X: set<Reference>, r: Reference)
    requires X <= db.Keys && r !in X
    ensures r in Doomed(Graph(v), db, X) <==> exists c :: Hits(Graph(v), db, r, c, Cascade, Doomed(Graph(v), db, X))
  {
    var gone := Doomed(Graph(v), db, X);
    DoomedIsLeast(Graph(v), db, X);
    if forall c :: !Hits(Graph(v), db, r, c, Cascade, gone) {
      var D := gone - {r};
      forall q, c | Hits(Graph(v), db, q, c, Cascade, D)
        ensures q in D
      {
        assert Hits(Graph(v), db, q, c, Cascade, gone);
      }
      assert Closed(Graph(v), db, D);
      assert gone <= D;
    }
  }

  /** What the keys of a broker session are. */
  lemma BrokerKeys(v: Version, c: Column)
    ensures Declared(v, BrokerAuthSessions, c).Some? <==>
            c == RealmId || c == ClientId || c == IdentityProviderId || c == AuthSessionId
    ensures Declared(v, BrokerAuthSessions, c).Some? ==>
              Declared(v, BrokerAuthSessions, c).value.onDelete == (if c == AuthSessionId then SetNull else Cascade)
  {
  }

  /** One of the row's realm, client or identity provider is among these rows. */
  ghost predicate OwnerAmong(v: Version, db: Database, b: Reference, gone: set<Reference>) {
    exists p :: p in gone && (RefersBy(v, db, b, RealmId, p) || RefersBy(v, db, b, ClientId, p)
                              || RefersBy(v, db, b, IdentityProviderId, p))
  }

  ghost predicate AuthSessionAmong(v: Version, db: Database, b: Reference, gone: set<Reference>) {
    exists p :: p in gone && RefersBy(v, db, b, AuthSessionId, p)
  }

  lemma BrokerHits(v: Version, db: Database, b: Reference, gone: set<Reference>)
    requires b in db && b.table == BrokerAuthSessions
    ensures (exists c :: Hits(Graph(v), db, b, c, Cascade, gone)) <==> OwnerAmong(v, db, b, gone)
    ensures Hits(Graph(v), db, b, AuthSessionId, SetNull, gone) <==> AuthSessionAmong(v, db, b, gone)
    ensures forall c | c != AuthSessionId :: !Hits(Graph(v), db, b, c, SetNull, gone)
  {
    forall c
      ensures Hits(Graph(v), db, b, c, Cascade, gone) ==> OwnerAmong(v, db, b, gone)
      ensures c != AuthSessionId ==> !Hits(Graph(v), db, b, c, SetNull, gone)
    {
      BrokerKeys(v, c);
      if Hits(Graph(v), db, b, c, Cascade, gone) {
        assert RefersBy(v, db, b, c, Target(Graph(v), b.table, db[b], c).value);
      }
    }
    BrokerKeys(v, AuthSessionId);
    if Hits(Graph(v), db, b, AuthSessionId, SetNull, gone) {
      assert RefersBy(v, db, b, AuthSessionId, Target(Graph(v), b.table, db[b], AuthSessionId).value);
    }
    if OwnerAmong(v, db, b, gone) {
      var p :| p in gone && (RefersBy(v, db, b, RealmId, p) || RefersBy(v, db, b, ClientId, p)
                             || RefersBy(v, db, b, IdentityProviderId, p));
      var c := if RefersBy(v, db, b, RealmId, p) then RealmId
               else if RefersBy(v, db, b, ClientId, p) then ClientId else IdentityProviderId;
      BrokerKeys(v, c);
      assert Hits(Graph(v), db, b, c, Cascade, gone);
    }
  }

  /**
   A broker session whose realm, client or identity provider goes is removed, whether or not its auth session goes
   too.  One that stays loses its auth session exactly when that goes, and keeps all its other columns.
   */
  lemma BrokerSessionFate(v: Version, db: Database, X: set<Reference>, b: Reference)
    requires X <= db.Keys && b in db && b.table == BrokerAuthSessions && b !in X
    requires Delete(Graph(v), db, X).Committed?
    ensures
      var gone := Doomed(Graph(v), db, X);
      var db' := Delete(Graph(v), db, X).db;
      && (b !in db' <==> OwnerAmong(v, db, b, gone))
      && (b in db' && !AuthSessionAmong(v, db, b, gone) ==> db'[b] == db[b])
      && (b in db' && AuthSessionAmong(v, db, b, gone) ==>
            db'[b] == Row(db[b].refs[AuthSessionId := None], db[b].data))
  {
    DoomedByOwnKey(v, db, X, b);
    var gone := Doomed(Graph(v), db, X);
    BrokerHits(v, db, b, gone);
    if b !in gone {
      var row := Scrubbed(Graph(v), b.table, db[b], gone);
      forall c | c in db[b].refs
        ensures row.refs[c] == if Hits(Graph(v), db, b, c, SetNull, gone) then None else db[b].refs[c]
      {
      }
      if AuthSessionAmong(v, db, b, gone) {
        assert row.refs == db[b].refs[AuthSessionId := None];
      } else {
        assert row.refs == db[b].refs;
      }
    }
  }
}
