/** Two operations of the domain services on the realm data graph: assign_role and delete_realm. */
module RealmService {
  import opened Common
  import opened Referential
  import opened RealmSchema
  import opened RealmDeletion
  import opened RealmIsolation

  // ---------------------------------------------------------------- assigning a role

  function Link(id: nat): Reference {
    Ref(UserRole, Serial(id))
  }

  /** The row assign_role inserts; the realms of the user and of the role are not compared. */
  function Assignment(user: Reference, role: Reference): Row<Column> {
    Row(map[UserId := Some(user.key), RoleId := Some(role.key)], map[])
  }

  lemma AssignmentReferences(v: Version, user: Reference, role: Reference, c: Column)
    requires user.table == Users && role.table == Roles
    ensures Declared(v, UserRole, c).Some? <==> c == UserId || c == RoleId
    ensures Target(Graph(v), UserRole, Assignment(user, role), c) ==
            if c == UserId then Some(user) else if c == RoleId then Some(role) else None
  {
  }

  lemma AssignmentFits(v: Version, db: Database, user: Reference, role: Reference, id: nat)
    requires user in db && user.table == Users && role in db && role.table == Roles
    ensures Fits(Graph(v), db, Link(id), Assignment(user, role))
  {
    forall c | Graph(v).decl(UserRole, c).Some?
      ensures c == UserId || c == RoleId
    {
      AssignmentReferences(v, user, role, c);
    }
  }

  lemma InOneRealmIff(v: Version, db': Database, user: Reference, role: Reference, id: nat)
    requires user.table == Users && role.table == Roles
    requires Link(id) in db' && db'[Link(id)] == Assignment(user, role)
    ensures (forall c | Target(Graph(v), UserRole, Assignment(user, role), c).Some? ::
               Owner(v, db', Target(Graph(v), UserRole, Assignment(user, role), c).value) ==
               Owner(v, db', Link(id))) <==>
            Owner(v, db', user) == Owner(v, db', role)
  {
    AssignmentReferences(v, user, role, UserId);
    AssignmentReferences(v, user, role, RoleId);
    assert Owner(v, db', Link(id)) == Owner(v, db', user);
    forall c | Target(Graph(v), UserRole, Assignment(user, role), c).Some?
      ensures Target(Graph(v), UserRole, Assignment(user, role), c).value in {user, role}
    {
      AssignmentReferences(v, user, role, c);
    }
  }

  lemma AssignmentAccepted(v: Version, db: Database, user: Reference, role: Reference, id: nat)
    requires Good(Graph(v), db)
    requires user in db && user.table == Users && role in db && role.table == Roles
    ensures
      var db' := db[Link(id) := Assignment(user, role)];
      Execute(Graph(v), db, Put(Link(id), Assignment(user, role))) == db' && Good(Graph(v), db')
  {
    AssignmentFits(v, db, user, role, id);
    FitsIffGood(Graph(v), db, Link(id), Assignment(user, role));
  }

  lemma AssignmentOwners(v: Version, db: Database, user: Reference, role: Reference, id: nat)
    requires Good(Graph(v), db)
    requires user in db && user.table == Users && role in db && role.table == Roles && Link(id) !in db
    ensures
      var db' := db[Link(id) := Assignment(user, role)];
      && Owner(v, db', Link(id)) == Owner(v, db', user) == Owner(v, db, user)
      && Owner(v, db', role) == Owner(v, db, role)
  {
    PutKeepsOwner(v, db, Link(id), Assignment(user, role), user);
    PutKeepsOwner(v, db, Link(id), Assignment(user, role), role);
    AssignmentReferences(v, user, role, UserId);
  }

  lemma AssignmentConsistentIff(v: Version, db: Database, user: Reference, role: Reference, id: nat)
    requires Good(Graph(v), db) && RealmConsistent(v, db)
    requires user.table == Users && role.table == Roles && Link(id) !in db
    ensures
      var db' := db[Link(id) := Assignment(user, role)];
      RealmConsistent(v, db') <==> Owner(v, db', user) == Owner(v, db', role)
  {
    PutKeepsRealmsIff(v, db, Link(id), Assignment(user, role));
    InOneRealmIff(v, db[Link(id) := Assignment(user, role)], user, role, id);
  }

  /** The constraints accept any role for any user, and realms stay apart exactly when the two share theirs. */
  lemma AssignRole(v: Version, db: Database, user: Reference, role: Reference, id: nat)
    requires Good(Graph(v), db) && RealmConsistent(v, db)
    requires user in db && user.table == Users && role in db && role.table == Roles && Link(id) !in db
    ensures
      var db' := db[Link(id) := Assignment(user, role)];
      && Execute(Graph(v), db, Put(Link(id), Assignment(user, role))) == db'
      && Good(Graph(v), db')
      && Owner(v, db', Link(id)) == Owner(v, db, user)
      && (RealmConsistent(v, db') <==> Owner(v, db, user) == Owner(v, db, role))
  {
    AssignmentAccepted(v, db, user, role, id);
    AssignmentOwners(v, db, user, role, id);
    AssignmentConsistentIff(v, db, user, role, id);
  }

  /** With a role of another realm, deleting that realm takes a row of the user's realm with it. */
  lemma RoleOfAnotherRealm(v: Version, db: Database, user: Reference, role: Reference, id: nat, realm: Reference)
    requires Good(Graph(v), db) && RealmConsistent(v, db)
    requires user in db && user.table == Users && role in db && role.table == Roles && Link(id) !in db
    requires realm in db && realm.table == Realms && Owner(v, db, role) == Some(realm) != Owner(v, db, user)
    ensures
      var db' := db[Link(id) := Assignment(user, role)];
      && Owner(v, db', Link(id)) == Owner(v, db, user)
      && (Delete(Graph(v), db', {realm}).Committed? ==> Link(id) !in Delete(Graph(v), db', {realm}).db)
  {
    var db' := db[Link(id) := Assignment(user, role)];
    AssignmentAccepted(v, db, user, role, id);
    AssignmentOwners(v, db, user, role, id);
    AssignmentReferences(v, user, role, RoleId);
    if Delete(Graph(v), db', {realm}).Committed? {
      EstateIsDoomed(v, db', realm, role);
      DoomedIsLeast(Graph(v), db', {realm});
      assert Hits(Graph(v), db', Link(id), RoleId, Cascade, Doomed(Graph(v), db', {realm}));
    }
  }

  const OTHER := Ref(Realms, Uuid(3))
  const ROLE := Ref(Roles, Uuid(4))

  /** Two realms, one with a user and one with a role. */
  const TWO_REALMS: Database := map[
    REALM := Row(map[], map[]),
    OTHER := Row(map[], map[]),
    USER := Row(map[RealmId := Some(REALM.key), ClientId := None], map[]),
    ROLE := Row(map[RealmId := Some(OTHER.key), ClientId := None], map[])]

  lemma TwoRealmsReferences(v: Version, r: Reference, c: Column)
    requires r in TWO_REALMS && Declared(v, r.table, c).Some?
    ensures (r == USER || r == ROLE) && (c == RealmId || c == ClientId)
    ensures c == ClientId ==> Declared(v, r.table, c).value.nullable
    ensures c == RealmId ==> Declared(v, r.table, c).value.parent == Realms
  {
  }

  lemma TwoRealmsOwners(v: Version)
    ensures Owner(v, TWO_REALMS, REALM) == Some(REALM) && Owner(v, TWO_REALMS, OTHER) == Some(OTHER)
    ensures Owner(v, TWO_REALMS, USER) == Some(REALM) && Owner(v, TWO_REALMS, ROLE) == Some(OTHER)
  {
    assert Owner(v, TWO_REALMS, REALM) == Some(REALM) && Owner(v, TWO_REALMS, OTHER) == Some(OTHER);
  }

  lemma TwoRealmsIntegrity(v: Version)
    ensures Integrity(Graph(v), TWO_REALMS)
  {
    var db := TWO_REALMS;
    forall r, c | r in db && Graph(v).decl(r.table, c).Some?
      ensures c in db[r].refs
      ensures db[r].refs[c].None? ==> Graph(v).decl(r.table, c).value.nullable
      ensures db[r].refs[c].Some? ==> Ref(Graph(v).decl(r.table, c).value.parent, db[r].refs[c].value) in db
    {
      TwoRealmsReferences(v, r, c);
    }
  }

  lemma TwoRealmsIsGood(v: Version)
    ensures Good(Graph(v), TWO_REALMS)
  {
    TwoRealmsIntegrity(v);
    forall r, q, c | r in TWO_REALMS && q in TWO_REALMS && r.table == q.table && DeclaredUnique(r.table, c)
      ensures r == q
    {
      assert r == USER && q == USER;
    }
  }

  lemma TwoRealmsIsConsistent(v: Version)
    ensures RealmConsistent(v, TWO_REALMS)
  {
    var db := TWO_REALMS;
    TwoRealmsOwners(v);
    forall r, c | r in db && Target(Graph(v), r.table, db[r], c).Some?
      ensures Owner(v, db, Target(Graph(v), r.table, db[r], c).value) == Owner(v, db, r)
    {
      TwoRealmsReferences(v, r, c);
    }
  }

  const LINKED: Database := TWO_REALMS[Link(0) := Assignment(USER, ROLE)]

  lemma NothingBlocks(v: Version, db: Database, X: set<Reference>)
    requires X <= db.Keys && forall r | r in db :: r.table != RefreshTokens
    ensures Delete(Graph(v), db, X).Committed?
  {
    BlockedIffRefreshToken(v, db, X);
  }

  lemma NoTokens(v: Version)
    ensures Delete(Graph(v), LINKED, {OTHER}).Committed?
  {
    assert OTHER in LINKED && forall r | r in LINKED :: r.table != RefreshTokens;
    NothingBlocks(v, LINKED, {OTHER});
  }

  /** Assigning that role to that user is accepted, and deleting the role's realm removes the user's assignment. */
  lemma RealmDeleteCanReachAnotherRealm(v: Version)
    ensures Good(Graph(v), TWO_REALMS) && RealmConsistent(v, TWO_REALMS)
    ensures Execute(Graph(v), TWO_REALMS, Put(Link(0), Assignment(USER, ROLE))) == LINKED
    ensures Owner(v, LINKED, Link(0)) == Some(REALM)
    ensures Delete(Graph(v), LINKED, {OTHER}).Committed? && Link(0) !in Delete(Graph(v), LINKED, {OTHER}).db
  {
    TwoRealmsIsGood(v);
    TwoRealmsIsConsistent(v);
    TwoRealmsOwners(v);
    assert USER in TWO_REALMS && ROLE in TWO_REALMS && OTHER in TWO_REALMS && Link(0) !in TWO_REALMS;
    AssignRole(v, TWO_REALMS, USER, ROLE, 0);
    NoTokens(v);
    RoleOfAnotherRealm(v, TWO_REALMS, USER, ROLE, 0, OTHER);
  }

  // ---------------------------------------------------------------- delete_realm

  /** How delete_realm ends: an error with nothing done, an error when the realm is gone, or success. */
  datatype Ending = NothingDone | RealmGone(db: Database) | BothGone(db: Database)

  /**
   delete_realm deletes the realm's row and then, in a statement of its own, the client that stands for the realm in
   the master realm.  An error ends it where it is: the first statement is not undone.
   */
  ghost function DeleteRealm(v: Version, db: Database, realm: Reference, master: Reference, client: Reference): Ending {
    if realm !in db || realm == master || client !in db then NothingDone
    else
      match Delete(Graph(v), db, {realm})
      case Rejected => NothingDone
      case Committed(db1) =>
        if client !in db1 then RealmGone(db1)
        else
          match Delete(Graph(v), db1, {client})
          case Rejected => RealmGone(db1)
          case Committed(db2) => BothGone(db2)
  }

  /** The client is one of the master realm's. */
  ghost predicate Represents(v: Version, db: Database, master: Reference, client: Reference) {
    client in db && client.table == Clients && Target(Graph(v), Clients, db[client], RealmId) == Some(master)
  }

  /** The rows that are to go with the realm's own row. */
  ghost function WithRealm(v: Version, db: Database, realm: Reference): set<Reference> {
    Doomed(Graph(v), db, {realm})
  }

  ghost function Footprint(v: Version, db: Database, client: Reference): set<Reference> {
    set r | r in db && InClientFootprint(v, db, client, r)
  }

  /** A user that is to go with the realm holds a refresh token. */
  ghost predicate TokenInTheWay(v: Version, db: Database, realm: Reference) {
    v.Entities? && exists t, u :: TokenOf(v, db, t, u) && u in WithRealm(v, db, realm)
  }

  /** The client's service account holds a refresh token. */
  ghost predicate AccountInTheWay(v: Version, db: Database, client: Reference) {
    v.Entities? && exists u, t :: ServiceAccount(v, db, u, client) && TokenOf(v, db, t, u)
  }

  lemma FirstStatement(v: Version, db: Database, realm: Reference)
    requires realm in db && realm.table == Realms
    ensures Delete(Graph(v), db, {realm}) ==
            if TokenInTheWay(v, db, realm) then Rejected else Committed(After(Graph(v), db, WithRealm(v, db, realm)))
  {
    BlockedIffRefreshToken(v, db, {realm});
  }

  /** A delete takes away who refers by CASCADE to whom with the rows it removes, and no more. */
  lemma UnderAfter(v: Version, db: Database, A: set<Reference>, q: Reference, p: Reference)
    ensures Under(v, After(Graph(v), db, A), q, p) <==> q !in A && Under(v, db, q, p)
  {
    forall c
      ensures Hits(Graph(v), After(Graph(v), db, A), q, c, Cascade, {p}) <==>
              q !in A && Hits(Graph(v), db, q, c, Cascade, {p})
    {
      HitsAfter(Graph(v), db, A, q, c, Cascade, {p});
    }
  }

  lemma FootprintAfter(v: Version, db: Database, A: set<Reference>, client: Reference, r: Reference)
    requires Closed(Graph(v), db, A) && r !in A && client.table == Clients
    ensures InClientFootprint(v, After(Graph(v), db, A), client, r) <==> InClientFootprint(v, db, client, r)
  {
    FootprintByColumns(v, db, client, r);
    FootprintByColumns(v, After(Graph(v), db, A), client, r);
    forall q, p
      ensures Under(v, After(Graph(v), db, A), q, p) <==> q !in A && Under(v, db, q, p)
    {
      UnderAfter(v, db, A, q, p);
    }
    forall p | Under(v, db, r, p)
      ensures p !in A
    {
      var c :| Hits(Graph(v), db, r, c, Cascade, {p});
      assert p in A ==> Hits(Graph(v), db, r, c, Cascade, A);
    }
  }

  lemma TokenAfter(v: Version, db: Database, A: set<Reference>, t: Reference, u: Reference)
    requires v.Entities?
    ensures TokenOf(v, After(Graph(v), db, A), t, u) <==> t !in A && TokenOf(v, db, t, u)
  {
    if t.table == RefreshTokens {
      assert Graph(v).decl(t.table, UserId) == Some(Decl(Users, false, NoAction));
      HitsAfter(Graph(v), db, A, t, UserId, NoAction, {u});
    }
  }

  /** No token is in the way of the first statement, so the account and its tokens outlast it. */
  lemma AccountAfter(v: Version, db: Database, realm: Reference, client: Reference)
    requires realm in db && realm.table == Realms && !TokenInTheWay(v, db, realm) && client.table == Clients
    ensures AccountInTheWay(v, After(Graph(v), db, WithRealm(v, db, realm)), client) <==> AccountInTheWay(v, db, client)
  {
    if v.Entities? {
      var A := WithRealm(v, db, realm);
      forall u, t
        ensures ServiceAccount(v, After(Graph(v), db, A), u, client) && TokenOf(v, After(Graph(v), db, A), t, u) <==>
                ServiceAccount(v, db, u, client) && TokenOf(v, db, t, u)
      {
        UnderAfter(v, db, A, u, client);
        UnderClientIff(v, db, u, client);
        UnderClientIff(v, After(Graph(v), db, A), u, client);
        TokenAfter(v, db, A, t, u);
        if TokenOf(v, db, t, u) {
          RefreshTokensAreNeverCascaded(v, db, {realm}, t);
        }
      }
    }
  }

  /** Removing the client from what is left when the rows of `A` have gone. */
  lemma FootprintGoes(v: Version, db: Database, A: set<Reference>, client: Reference)
    requires Closed(Graph(v), db, A) && client in After(Graph(v), db, A) && client.table == Clients
    ensures After(Graph(v), After(Graph(v), db, A), Doomed(Graph(v), After(Graph(v), db, A), {client})) ==
            After(Graph(v), db, A + Footprint(v, db, client))
  {
    var db1 := After(Graph(v), db, A);
    var gone := Doomed(Graph(v), db1, {client});
    DoomedIsLeast(Graph(v), db1, {client});
    forall r
      ensures r in gone <==> r in db && r !in A && r in Footprint(v, db, client)
    {
      ClientFootprint(v, db1, client, r);
      if r !in A {
        FootprintAfter(v, db, A, client, r);
      }
    }
    AfterTwice(Graph(v), db, A, gone);
    assert A + gone == A + Footprint(v, db, client);
  }

  /** The second statement, on what the first one left. */
  lemma SecondStatement(v: Version, db: Database, realm: Reference, client: Reference)
    requires realm in db && realm.table == Realms && !TokenInTheWay(v, db, realm)
    requires client in db && client !in WithRealm(v, db, realm) && client.table == Clients
    ensures Delete(Graph(v), After(Graph(v), db, WithRealm(v, db, realm)), {client}) ==
            if AccountInTheWay(v, db, client) then Rejected
            else Committed(After(Graph(v), db, WithRealm(v, db, realm) + Footprint(v, db, client)))
  {
    var A := WithRealm(v, db, realm);
    DoomedIsLeast(Graph(v), db, {realm});
    ClientDeleteBlockedIff(v, After(Graph(v), db, A), client);
    AccountAfter(v, db, realm, client);
    FootprintGoes(v, db, A, client);
  }

  lemma OnlyKeyOfClients(v: Version, t: Table, c: Column)
    requires Declared(v, t, c).Some?
    ensures t != Realms && (t == Clients ==> c == RealmId)
  {
  }

  /** The client of another realm does not go with this one, whatever refers to what. */
  lemma ClientOutlasts(v: Version, db: Database, realm: Reference, master: Reference, client: Reference)
    requires realm in db && realm.table == Realms && realm != master && Represents(v, db, master, client)
    ensures client !in WithRealm(v, db, realm)
  {
    DoomedIsLeast(Graph(v), db, {realm});
    var D := set r | r in db && r != client && r != master;
    forall r, c | Hits(Graph(v), db, r, c, Cascade, D)
      ensures r in D
    {
      OnlyKeyOfClients(v, r.table, c);
    }
    assert Closed(Graph(v), db, D);
  }

  lemma Continued(v: Version, db: Database, realm: Reference, master: Reference, client: Reference, db1: Database)
    requires realm in db && realm != master && client in db && client in db1
    requires Delete(Graph(v), db, {realm}) == Committed(db1)
    ensures DeleteRealm(v, db, realm, master, client) ==
            match Delete(Graph(v), db1, {client})
            case Rejected => RealmGone(db1)
            case Committed(db2) => BothGone(db2)
  {
  }

  /**
   delete_realm does nothing exactly when a user that would go with the realm holds a refresh token.  It fails with
   the realm gone exactly when only the client's service account holds one.  Otherwise it removes what goes with the
   realm and the client's footprint, and nulls the SET NULL keys into them.
   */
  lemma DeleteRealmRemoves(v: Version, db: Database, realm: Reference, master: Reference, client: Reference)
    requires realm in db && realm.table == Realms && realm != master && Represents(v, db, master, client)
    ensures
      var A := WithRealm(v, db, realm);
      match DeleteRealm(v, db, realm, master, client)
      case NothingDone => TokenInTheWay(v, db, realm)
      case RealmGone(db1) =>
        !TokenInTheWay(v, db, realm) && AccountInTheWay(v, db, client) && db1 == After(Graph(v), db, A)
      case BothGone(db2) =>
        && !TokenInTheWay(v, db, realm) && !AccountInTheWay(v, db, client)
        && db2 == After(Graph(v), db, A + Footprint(v, db, client))
  {
    FirstStatement(v, db, realm);
    if !TokenInTheWay(v, db, realm) {
      ClientOutlasts(v, db, realm, master, client);
      SecondStatement(v, db, realm, client);
      Continued(v, db, realm, master, client, After(Graph(v), db, WithRealm(v, db, realm)));
    }
  }

  lemma NeitherInTheWay(v: Version, db: Database, realm: Reference, client: Reference)
    requires realm in db && realm.table == Realms && client in db && client.table == Clients
    requires !TokenInTheWay(v, db, realm) && !AccountInTheWay(v, db, client)
    ensures Delete(Graph(v), db, {realm, client}).Committed?
  {
    BlockedIffRefreshToken(v, db, {realm, client});
    DoomedUnion(Graph(v), db, {realm}, {client});
    assert {realm} + {client} == {realm, client};
    forall t, u | v.Entities? && TokenOf(v, db, t, u)
      ensures u !in Doomed(Graph(v), db, {realm, client})
    {
      TokenOfUser(v, db, t, u);
      UserGoesWithClientIff(v, db, client, u);
    }
  }

  lemma FootprintIsDoomed(v: Version, db: Database, client: Reference)
    requires client in db && client.table == Clients
    ensures Footprint(v, db, client) == Doomed(Graph(v), db, {client})
  {
    forall r
      ensures r in Footprint(v, db, client) <==> r in Doomed(Graph(v), db, {client})
    {
      ClientFootprint(v, db, client, r);
    }
  }

  /** When both statements succeed they do what one DELETE of both rows does. */
  lemma DeleteRealmIsOneDelete(v: Version, db: Database, realm: Reference, master: Reference, client: Reference)
    requires realm in db && realm.table == Realms && realm != master && Represents(v, db, master, client)
    requires DeleteRealm(v, db, realm, master, client).BothGone?
    ensures Doomed(Graph(v), db, {realm, client}) == WithRealm(v, db, realm) + Footprint(v, db, client)
    ensures Delete(Graph(v), db, {realm, client}) == Committed(DeleteRealm(v, db, realm, master, client).db)
  {
    DeleteRealmRemoves(v, db, realm, master, client);
    FootprintIsDoomed(v, db, client);
    DoomedUnion(Graph(v), db, {realm}, {client});
    assert {realm} + {client} == {realm, client};
    NeitherInTheWay(v, db, realm, client);
  }

  /** A realm's row goes only as a target. */
  lemma RealmRowStays(v: Version, db: Database, X: set<Reference>, realm: Reference)
    requires X <= db.Keys && realm in db && realm.table == Realms && realm !in X
    ensures realm !in Doomed(Graph(v), db, X)
  {
    DoomedIsLeast(Graph(v), db, X);
    var D := db.Keys - {realm};
    forall r, c | Hits(Graph(v), db, r, c, Cascade, D)
      ensures r in D
    {
      OnlyKeyOfClients(v, r.table, c);
    }
    assert Closed(Graph(v), db, D);
  }

  /** Whatever it is asked to delete, delete_realm leaves the master realm where it is. */
  lemma MasterStays(v: Version, db: Database, realm: Reference, master: Reference, client: Reference)
    requires master in db && master.table == Realms && client.table == Clients
    ensures
      var ending := DeleteRealm(v, db, realm, master, client);
      ending.NothingDone? || master in ending.db
  {
    if realm in db && realm != master && client in db && Delete(Graph(v), db, {realm}).Committed? {
      RealmRowStays(v, db, {realm}, master);
      var db1 := Delete(Graph(v), db, {realm}).db;
      if client in db1 && Delete(Graph(v), db1, {client}).Committed? {
        RealmRowStays(v, db1, {client}, master);
      }
    }
  }

  // ---------------------------------------------------------------- delete_realm and the other realms

  lemma OwnerOfClient(v: Version, db: Database, master: Reference, client: Reference)
    requires Good(Graph(v), db) && Represents(v, db, master, client)
    ensures Owner(v, db, client) == Some(master)
  {
    assert Graph(v).decl(Clients, RealmId) == Declared(v, Clients, RealmId);
    assert master in db && master.table == Realms;
  }

  /** When no other realm refers into this one, what goes with the realm is what it owns. */
  lemma GoesIffOwned(v: Version, db: Database, realm: Reference)
    requires Good(Graph(v), db) && realm in db && realm.table == Realms && !ReferredTo(v, db, realm)
    ensures TokenInTheWay(v, db, realm) <==> v.Entities? && OwnsToken(v, db, realm)
    ensures !TokenInTheWay(v, db, realm) ==> WithRealm(v, db, realm) == Estate(v, db, realm)
  {
    RealmDeleteBlockedIff(v, db, realm);
    FirstStatement(v, db, realm);
    if !TokenInTheWay(v, db, realm) {
      EstateGoes(v, db, realm);
      InsularDoom(Graph(v), db, {realm}, Estate(v, db, realm));
    }
  }

  /**
   For such a realm delete_realm fails halfway exactly when just the account of its client in the master realm holds
   a refresh token, and what it removes is what the realm owns and that client's footprint.
   */
  lemma DeleteRealmOwned(v: Version, db: Database, realm: Reference, master: Reference, client: Reference)
    requires Good(Graph(v), db) && realm in db && realm.table == Realms && realm != master
    requires Represents(v, db, master, client) && !ReferredTo(v, db, realm)
    ensures
      match DeleteRealm(v, db, realm, master, client)
      case NothingDone => v.Entities? && OwnsToken(v, db, realm)
      case RealmGone(db1) =>
        && v.Entities? && !OwnsToken(v, db, realm) && AccountInTheWay(v, db, client)
        && db1 == db - Estate(v, db, realm)
      case BothGone(db2) =>
        && (v.Entities? ==> !OwnsToken(v, db, realm)) && !AccountInTheWay(v, db, client)
        && db2 == After(Graph(v), db, Estate(v, db, realm) + Footprint(v, db, client))
  {
    DeleteRealmRemoves(v, db, realm, master, client);
    GoesIffOwned(v, db, realm);
    OwnerOfClient(v, db, master, client);
    FirstStatement(v, db, realm);
    if !TokenInTheWay(v, db, realm) {
      RealmIsolationIff(v, db, realm);
    }
  }

  lemma FootprintInMaster(v: Version, db: Database, E: set<Reference>, client: Reference, r: Reference)
    requires client in E && client.table == Clients
    requires !RefersInto(Graph(v), db, E, E) && InClientFootprint(v, db, client, r)
    ensures r in E
  {
    FootprintByColumns(v, db, client, r);
    forall q, p | p in E && Under(v, db, q, p)
      ensures q in E
    {
      var c :| Hits(Graph(v), db, q, c, Cascade, {p});
      assert !Outside(Graph(v), db, E, q, c);
    }
  }

  /** Rows outside two regions that nothing refers into keep their values when rows of the two go. */
  lemma OutsideBoth(S: Schema<Table, Column>, db: Database, E: set<Reference>, M: set<Reference>,
      gone: set<Reference>, r: Reference)
    requires gone <= E + M && !RefersInto(S, db, E, E) && !RefersInto(S, db, M, M)
    requires r in db && r !in E && r !in M
    ensures r in After(S, db, gone) && After(S, db, gone)[r] == db[r]
  {
    forall c | Target(S, r.table, db[r], c).Some?
      ensures Target(S, r.table, db[r], c).value !in gone
    {
      assert Outside(S, db, E, r, c) && Outside(S, db, M, r, c);
    }
    ScrubbedNowhere(S, r.table, db[r], gone);
  }

  /** Whatever becomes of it, delete_realm leaves all rows but those of this realm and the master realm as they were. */
  lemma DeleteRealmSparesOthers(v: Version, db: Database, realm: Reference, master: Reference, client: Reference,
      r: Reference)
    requires Good(Graph(v), db) && realm in db && realm.table == Realms && realm != master
    requires Represents(v, db, master, client) && !ReferredTo(v, db, realm) && !ReferredTo(v, db, master)
    requires r in db && Owner(v, db, r) != Some(realm) && Owner(v, db, r) != Some(master)
    ensures
      var ending := DeleteRealm(v, db, realm, master, client);
      ending.NothingDone? || (r in ending.db && ending.db[r] == db[r])
  {
    DeleteRealmOwned(v, db, realm, master, client);
    OwnerOfClient(v, db, master, client);
    var E, M, F := Estate(v, db, realm), Estate(v, db, master), Footprint(v, db, client);
    forall q | q in F
      ensures q in M
    {
      FootprintInMaster(v, db, M, client, q);
    }
    OutsideBoth(Graph(v), db, E, M, E + F, r);
  }

  /**
   When it succeeds, delete_realm leaves the rows of all other realms alone exactly when none of them refers to a row
   that goes.
   */
  lemma DeleteRealmSparesOthersIff(v: Version, db: Database, realm: Reference, master: Reference, client: Reference)
    requires Good(Graph(v), db) && realm in db && realm.table == Realms && realm != master
    requires Represents(v, db, master, client) && DeleteRealm(v, db, realm, master, client).BothGone?
    ensures
      var two := Estate(v, db, realm) + Estate(v, db, master);
      OthersUntouched(db, DeleteRealm(v, db, realm, master, client).db, two) <==>
      !RefersInto(Graph(v), db, two, WithRealm(v, db, realm) + Footprint(v, db, client))
  {
    DeleteRealmIsOneDelete(v, db, realm, master, client);
    OwnerOfClient(v, db, master, client);
    DeleteStaysWithinIff(Graph(v), db, {realm, client}, Estate(v, db, realm) + Estate(v, db, master));
  }
}
