/** Realms are isolated from each other: what one realm's statements can do to another's rows. */
module RealmIsolation {
  import opened Common
  import opened Referential
  import opened RealmSchema
  import opened RealmDeletion

  /** The rows a realm owns. */
  ghost function Estate(v: Version, db: Database, realm: Reference): set<Reference> {
    set r | r in db && Owner(v, db, r) == Some(realm)
  }

  /** A row of another realm refers to a row this realm owns. */
  ghost predicate ReferredTo(v: Version, db: Database, realm: Reference) {
    RefersInto(Graph(v), db, Estate(v, db, realm), Estate(v, db, realm))
  }

  lemma ConsistentNotReferredTo(v: Version, db: Database, realm: Reference)
    requires RealmConsistent(v, db)
    ensures !ReferredTo(v, db, realm)
  {
    var E := Estate(v, db, realm);
    forall r, c | Outside(Graph(v), db, E, r, c)
      ensures Target(Graph(v), r.table, db[r], c).value !in E
    {
    }
  }

  /**
   Deleting rows of one realm, whichever they are, leaves all other realms alone exactly when none of their rows
   refers to a row that goes.
   */
  lemma DeleteStaysInRealmIff(v: Version, db: Database, X: set<Reference>, realm: Reference)
    requires X <= Estate(v, db, realm) && Delete(Graph(v), db, X).Committed?
    ensures (forall r | r in db && Owner(v, db, r) != Some(realm) ::
               r in Delete(Graph(v), db, X).db && Delete(Graph(v), db, X).db[r] == db[r]) <==>
            !RefersInto(Graph(v), db, Estate(v, db, realm), Doomed(Graph(v), db, X))
  {
    DeleteStaysWithinIff(Graph(v), db, X, Estate(v, db, realm));
    assert forall r | r in db :: r in Estate(v, db, realm) <==> Owner(v, db, r) == Some(realm);
  }

  // ---------------------------------------------------------------- ownership survives

  /** A surviving row keeps its home parent, so it keeps its realm. */
  lemma {:induction false} SurvivorsKeepOwner(v: Version, db: Database, X: set<Reference>, r: Reference)
    requires Good(Graph(v), db) && X <= db.Keys && Delete(Graph(v), db, X).Committed?
    requires r in Delete(Graph(v), db, X).db
    ensures Owner(v, Delete(Graph(v), db, X).db, r) == Owner(v, db, r)
    decreases Rank(r.table)
  {
    if r.table != Realms {
      var c := Home(r.table);
      assert Graph(v).decl(r.table, c) == Declared(v, r.table, c);
      var p := Target(Graph(v), r.table, db[r], c).value;
      SurvivorsKeepParents(Graph(v), db, X, r, c);
      SurvivorsKeepOwner(v, db, X, p);
    }
  }

  lemma DeleteKeepsRealms(v: Version, db: Database, X: set<Reference>)
    requires Good(Graph(v), db) && RealmConsistent(v, db) && X <= db.Keys && Delete(Graph(v), db, X).Committed?
    ensures RealmConsistent(v, Delete(Graph(v), db, X).db)
  {
    GraphIsWellFormed(v);
    DeleteKeepsGood(Graph(v), db, X);
    var db' := Delete(Graph(v), db, X).db;
    forall r, c | r in db' && Target(Graph(v), r.table, db'[r], c).Some?
      ensures Owner(v, db', Target(Graph(v), r.table, db'[r], c).value) == Owner(v, db', r)
    {
      var p := Target(Graph(v), r.table, db'[r], c);
      assert Graph(v).decl(r.table, c).Some?;
      assert p.value in db';
      assert p == Target(Graph(v), r.table, db[r], c);
      SurvivorsKeepOwner(v, db, X, p.value);
      SurvivorsKeepOwner(v, db, X, r);
    }
  }

  /** A row whose parents all belong to its own realm. */
  ghost predicate InOneRealm(v: Version, db: Database, r: Reference, row: Row<Column>) {
    var db' := db[r := row];
    forall c | Target(Graph(v), r.table, row, c).Some? ::
      Owner(v, db', Target(Graph(v), r.table, row, c).value) == Owner(v, db', r)
  }

  /** The write does not move an existing row to another realm. */
  ghost predicate Stays(v: Version, db: Database, r: Reference, row: Row<Column>) {
    r in db ==> Owner(v, db[r := row], r) == Owner(v, db, r)
  }

  lemma {:induction false} PutKeepsOwner(v: Version, db: Database, r: Reference, row: Row<Column>, q: Reference)
    requires Good(Graph(v), db) && Stays(v, db, r, row) && q in db
    ensures Owner(v, db[r := row], q) == Owner(v, db, q)
    decreases Rank(q.table)
  {
    if q.table != Realms && q != r {
      var p := Target(Graph(v), q.table, db[q], Home(q.table));
      assert Graph(v).decl(q.table, Home(q.table)).Some?;
      PutKeepsOwner(v, db, r, row, p.value);
    }
  }

  /** Of the writes that move no existing row, exactly those within one realm keep every row's parents in its realm. */
  lemma PutKeepsRealmsIff(v: Version, db: Database, r: Reference, row: Row<Column>)
    requires Good(Graph(v), db) && RealmConsistent(v, db) && Stays(v, db, r, row)
    ensures RealmConsistent(v, db[r := row]) <==> InOneRealm(v, db, r, row)
  {
    var db' := db[r := row];
    assert db'[r] == row;
    if InOneRealm(v, db, r, row) {
      forall q, c | q in db' && Target(Graph(v), q.table, db'[q], c).Some?
        ensures Owner(v, db', Target(Graph(v), q.table, db'[q], c).value) == Owner(v, db', q)
      {
        if q != r {
          var p := Target(Graph(v), q.table, db[q], c).value;
          assert Graph(v).decl(q.table, c).Some?;
          assert p in db;
          PutKeepsOwner(v, db, r, row, p);
          PutKeepsOwner(v, db, r, row, q);
        }
      }
    } else {
      var c :| Target(Graph(v), r.table, row, c).Some?
               && Owner(v, db', Target(Graph(v), r.table, row, c).value) != Owner(v, db', r);
      assert Target(Graph(v), r.table, db'[r], c).Some?;
    }
  }

  /** No write of the history moves an existing row to another realm. */
  ghost predicate NothingMoves(v: Version, db: Database, stmts: seq<Statement<Table, Column>>)
    decreases |stmts|
  {
    stmts != [] ==>
      && (stmts[0].Put? ==> Stays(v, db, stmts[0].ref, stmts[0].row))
      && NothingMoves(v, Execute(Graph(v), db, stmts[0]), stmts[1..])
  }

  /** Every accepted write of the history keeps to one realm; deletes may be of anything. */
  ghost predicate Orderly(v: Version, db: Database, stmts: seq<Statement<Table, Column>>)
    decreases |stmts|
  {
    stmts != [] ==>
      && (stmts[0].Put? && Fits(Graph(v), db, stmts[0].ref, stmts[0].row) ==>
            InOneRealm(v, db, stmts[0].ref, stmts[0].row))
      && Orderly(v, Execute(Graph(v), db, stmts[0]), stmts[1..])
  }

  /** After every statement of the history each row's parents are in its own realm. */
  ghost predicate AlwaysConsistent(v: Version, db: Database, stmts: seq<Statement<Table, Column>>)
    decreases |stmts|
  {
    RealmConsistent(v, db) && (stmts != [] ==> AlwaysConsistent(v, Execute(Graph(v), db, stmts[0]), stmts[1..]))
  }

  lemma OneStatement(v: Version, db: Database, stmt: Statement<Table, Column>)
    requires Good(Graph(v), db) && RealmConsistent(v, db)
    requires stmt.Put? ==> Stays(v, db, stmt.ref, stmt.row)
    ensures Good(Graph(v), Execute(Graph(v), db, stmt))
    ensures RealmConsistent(v, Execute(Graph(v), db, stmt)) <==>
            (stmt.Put? && Fits(Graph(v), db, stmt.ref, stmt.row) ==> InOneRealm(v, db, stmt.ref, stmt.row))
  {
    GraphIsWellFormed(v);
    match stmt
    case Put(r, row) =>
      FitsIffGood(Graph(v), db, r, row);
      PutKeepsRealmsIff(v, db, r, row);
    case Remove(X) =>
      if Delete(Graph(v), db, X * db.Keys).Committed? {
        DeleteKeepsGood(Graph(v), db, X * db.Keys);
        DeleteKeepsRealms(v, db, X * db.Keys);
      }
  }

  /** Realms stay apart throughout a history exactly when each of its accepted writes keeps to one realm. */
  lemma {:induction false} HistoriesKeepRealmsIff(v: Version, db: Database, stmts: seq<Statement<Table, Column>>)
    requires Good(Graph(v), db) && RealmConsistent(v, db) && NothingMoves(v, db, stmts)
    ensures AlwaysConsistent(v, db, stmts) <==> Orderly(v, db, stmts)
    decreases |stmts|
  {
    if stmts != [] {
      var db' := Execute(Graph(v), db, stmts[0]);
      OneStatement(v, db, stmts[0]);
      if RealmConsistent(v, db') {
        HistoriesKeepRealmsIff(v, db', stmts[1..]);
      }
    }
  }

  // ---------------------------------------------------------------- deleting a realm

  lemma {:induction false} EstateIsDoomed(v: Version, db: Database, realm: Reference, r: Reference)
    requires Good(Graph(v), db) && realm in db && realm.table == Realms
    requires Owner(v, db, r) == Some(realm) && Delete(Graph(v), db, {realm}).Committed?
    ensures r in Doomed(Graph(v), db, {realm})
    decreases Rank(r.table)
  {
    DoomedIsLeast(Graph(v), db, {realm});
    if r.table != Realms {
      var c := Home(r.table);
      var p := Target(Graph(v), r.table, db[r], c).value;
      EstateIsDoomed(v, db, realm, p);
      assert Hits(Graph(v), db, r, c, Declared(v, r.table, c).value.onDelete, Doomed(Graph(v), db, {realm}));
    }
  }

  lemma EstateGoes(v: Version, db: Database, realm: Reference)
    requires Good(Graph(v), db) && realm in db && realm.table == Realms
    requires Delete(Graph(v), db, {realm}).Committed?
    ensures {realm} <= Estate(v, db, realm) <= Doomed(Graph(v), db, {realm})
  {
    forall r | r in Estate(v, db, realm)
      ensures r in Doomed(Graph(v), db, {realm})
    {
      EstateIsDoomed(v, db, realm, r);
    }
  }

  /**
   An unblocked delete of a realm removes the rows the realm owns and keeps every other row as it was, exactly when
   no other realm's row refers to a row the realm owns.
   */
  lemma RealmIsolationIff(v: Version, db: Database, realm: Reference)
    requires Good(Graph(v), db) && realm in db && realm.table == Realms
    requires Delete(Graph(v), db, {realm}).Committed?
    ensures Delete(Graph(v), db, {realm}).db == db - Estate(v, db, realm) <==> !ReferredTo(v, db, realm)
  {
    EstateGoes(v, db, realm);
    DeleteTakesRegionIff(Graph(v), db, {realm}, Estate(v, db, realm));
  }

  /** Where rows and their parents share a realm it is so, and both invariants survive. */
  lemma RealmIsolation(v: Version, db: Database, realm: Reference)
    requires Good(Graph(v), db) && RealmConsistent(v, db)
    requires realm in db && realm.table == Realms
    requires Delete(Graph(v), db, {realm}).Committed?
    ensures Delete(Graph(v), db, {realm}).db == db - Estate(v, db, realm)
    ensures Good(Graph(v), db - Estate(v, db, realm)) && RealmConsistent(v, db - Estate(v, db, realm))
  {
    GraphIsWellFormed(v);
    DeleteKeepsGood(Graph(v), db, {realm});
    DeleteKeepsRealms(v, db, {realm});
    ConsistentNotReferredTo(v, db, realm);
    RealmIsolationIff(v, db, realm);
  }

  ghost predicate OwnsToken(v: Version, db: Database, realm: Reference) {
    exists t :: t in db && t.table == RefreshTokens && Owner(v, db, t) == Some(realm)
  }

  /** The delete of a realm that no other realm's row refers into is blocked exactly when it owns a refresh token. */
  lemma RealmDeleteBlockedIff(v: Version, db: Database, realm: Reference)
    requires Good(Graph(v), db) && realm in db && realm.table == Realms && !ReferredTo(v, db, realm)
    ensures Delete(Graph(v), db, {realm}).Rejected? <==> v.Entities? && OwnsToken(v, db, realm)
  {
    var E := Estate(v, db, realm);
    BlockedIffRefreshToken(v, db, {realm});
    InsularDoom(Graph(v), db, {realm}, E);
    if Delete(Graph(v), db, {realm}).Rejected? {
      var t, u :| t !in {realm} && TokenOf(v, db, t, u) && u in Doomed(Graph(v), db, {realm});
      assert t in E by {
        assert !Outside(Graph(v), db, E, t, UserId);
      }
    } else if v.Entities? {
      forall t | t in db && t.table == RefreshTokens && Owner(v, db, t) == Some(realm)
        ensures false
      {
        EstateIsDoomed(v, db, realm, t);
        RefreshTokensAreNeverCascaded(v, db, {realm}, t);
      }
    }
  }

  const REALM := Ref(Realms, Uuid(0))
  const USER := Ref(Users, Uuid(1))
  const TOKEN := Ref(RefreshTokens, Uuid(2))

  /** A realm with one user, who holds one refresh token. */
  const SIGNED_IN: Database := map[
    REALM := Row(map[], map[]),
    USER := Row(map[RealmId := Some(REALM.key), ClientId := None], map[]),
    TOKEN := Row(map[UserId := Some(USER.key)], map[])]

  lemma SignedInReferences(r: Reference, c: Column)
    requires r in SIGNED_IN && Declared(Entities, r.table, c).Some?
    ensures (r == USER && c == RealmId) || (r == USER && c == ClientId) || (r == TOKEN && c == UserId)
  {
  }

  lemma SignedInIsGood()
    ensures Good(Graph(Entities), SIGNED_IN)
  {
    var db := SIGNED_IN;
    forall r, c | r in db && Graph(Entities).decl(r.table, c).Some?
      ensures c in db[r].refs
      ensures db[r].refs[c].None? ==> Graph(Entities).decl(r.table, c).value.nullable
      ensures db[r].refs[c].Some? ==> Ref(Graph(Entities).decl(r.table, c).value.parent, db[r].refs[c].value) in db
    {
      SignedInReferences(r, c);
    }
  }

  lemma SignedInIsConsistent()
    ensures RealmConsistent(Entities, SIGNED_IN) && Owner(Entities, SIGNED_IN, TOKEN) == Some(REALM)
  {
    var db := SIGNED_IN;
    assert Owner(Entities, db, REALM) == Some(REALM);
    assert Owner(Entities, db, USER) == Some(REALM);
    assert Owner(Entities, db, TOKEN) == Some(REALM);
    forall r, c | r in db && Target(Graph(Entities), r.table, db[r], c).Some?
      ensures Owner(Entities, db, Target(Graph(Entities), r.table, db[r], c).value) == Owner(Entities, db, r)
    {
      SignedInReferences(r, c);
    }
  }

  /** Deleting that realm, which promises to remove all associated data, is refused. */
  lemma RealmDeleteCanBeRefused()
    ensures Good(Graph(Entities), SIGNED_IN) && RealmConsistent(Entities, SIGNED_IN)
    ensures Delete(Graph(Entities), SIGNED_IN, {REALM}).Rejected?
  {
    SignedInIsGood();
    SignedInIsConsistent();
    ConsistentNotReferredTo(Entities, SIGNED_IN, REALM);
    RealmDeleteBlockedIff(Entities, SIGNED_IN, REALM);
  }
}
