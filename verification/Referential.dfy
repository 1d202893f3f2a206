/**
 Foreign keys with ON DELETE actions, after section 11.8 (referential constraint
 definition) of ISO/IEC 9075-2, for an arbitrary schema.

 A DELETE removes its target rows and then fires pending actions, one at a time and in
 any order, until none is pending.  NO ACTION constraints are looked at only then, and a
 violated one rolls the whole statement back.
 */
module Referential {
  import opened Common

  datatype Key = Uuid(bits: nat) | Serial(n: nat) | Pair(first: nat, second: nat)

  datatype Action = Cascade | SetNull | NoAction

  /** What one foreign-key column of a table declares. */
  datatype Decl<T> = Decl(parent: T, nullable: bool, onDelete: Action)

  datatype Ref<T> = Ref(table: T, key: Key)

  /** The foreign-key columns of a row, and all its other columns. */
  datatype Row<C> = Row(refs: map<C, Option<Key>>, data: map<string, string>)

  type Db<T(==), C(==)> = map<Ref<T>, Row<C>>

  /** At most one foreign key per column, and a table's single-column UNIQUE constraints. */
  datatype Schema<!T, !C> = Schema(decl: (T, C) -> Option<Decl<T>>, unique: (T, C) -> bool)

  /** SET NULL is declared on nullable columns only. */
  ghost predicate WellFormed<T(!new), C(!new)>(S: Schema<T, C>) {
    forall t, c :: S.decl(t, c).Some? && S.decl(t, c).value.onDelete == SetNull ==> S.decl(t, c).value.nullable
  }

  /** The row that column `c` of a row of table `t` refers to, if it is a non-null foreign key. */
  function Target<T, C(==)>(S: Schema<T, C>, t: T, row: Row<C>, c: C): Option<Ref<T>> {
    if S.decl(t, c).Some? && c in row.refs && row.refs[c].Some?
    then Some(Ref(S.decl(t, c).value.parent, row.refs[c].value))
    else None
  }

  /** Column `c` of row `r` is a foreign key with action `a` that refers to a row in `P`. */
  predicate Hits<T(==), C(==)>(S: Schema<T, C>, db: Db<T, C>, r: Ref<T>, c: C, a: Action, P: set<Ref<T>>) {
    && r in db
    && Target(S, r.table, db[r], c).Some?
    && S.decl(r.table, c).value.onDelete == a
    && Target(S, r.table, db[r], c).value in P
  }

  // ---------------------------------------------------------------- constraints

  /** No foreign key dangles, and no non-nullable one is null or missing. */
  ghost predicate Integrity<T(!new), C(!new)>(S: Schema<T, C>, db: Db<T, C>) {
    forall r, c {:trigger S.decl(r.table, c)} | r in db && S.decl(r.table, c).Some? ::
      && c in db[r].refs
      && (db[r].refs[c].None? ==> S.decl(r.table, c).value.nullable)
      && (db[r].refs[c].Some? ==> Ref(S.decl(r.table, c).value.parent, db[r].refs[c].value) in db)
  }

  /** UNIQUE columns: two rows of a table never hold the same non-null value. */
  ghost predicate Unique<T(!new), C(!new)>(S: Schema<T, C>, db: Db<T, C>) {
    forall r, q, c | r in db && q in db && r.table == q.table && S.unique(r.table, c)
                     && c in db[r].refs && c in db[q].refs && db[r].refs[c].Some? && db[r].refs[c] == db[q].refs[c] ::
      r == q
  }

  ghost predicate Good<T(!new), C(!new)>(S: Schema<T, C>, db: Db<T, C>) {
    Integrity(S, db) && Unique(S, db)
  }

  // ---------------------------------------------------------------- the statement as a machine

  /** `db` holds the rows still there, `gone` the ones this statement has removed. */
  datatype Deletion<T(==), C(==)> = Deletion(db: Db<T, C>, gone: set<Ref<T>>)

  function Start<T(==), C(==)>(db: Db<T, C>, X: set<Ref<T>>): Deletion<T, C> {
    Deletion(db - X, X)
  }

  function Nulled<C>(row: Row<C>, c: C): Row<C> {
    row.(refs := row.refs[c := None])
  }

  /** One pending action fires: column `c` of row `r` refers to a removed row. */
  ghost predicate Fires<T, C>(S: Schema<T, C>, s: Deletion<T, C>, s': Deletion<T, C>, r: Ref<T>, c: C) {
    || (Hits(S, s.db, r, c, Cascade, s.gone) && s' == Deletion(s.db - {r}, s.gone + {r}))
    || (Hits(S, s.db, r, c, SetNull, s.gone) && s' == Deletion(s.db[r := Nulled(s.db[r], c)], s.gone))
  }

  ghost predicate Step<T(!new), C(!new)>(S: Schema<T, C>, s: Deletion<T, C>, s': Deletion<T, C>) {
    exists r, c :: Fires(S, s, s', r, c)
  }

  ghost predicate Quiescent<T(!new), C(!new)>(S: Schema<T, C>, s: Deletion<T, C>) {
    forall r, c :: !Hits(S, s.db, r, c, Cascade, s.gone) && !Hits(S, s.db, r, c, SetNull, s.gone)
  }

  /** Any sequence of firings, in any order. */
  ghost predicate Run<T(!new), C(!new)>(S: Schema<T, C>, run: seq<Deletion<T, C>>) {
    && |run| > 0
    && forall i | 0 <= i < |run| - 1 :: Step(S, run[i], run[i + 1])
  }

  ghost predicate ViolatesNoAction<T(!new), C(!new)>(S: Schema<T, C>, db: Db<T, C>, gone: set<Ref<T>>) {
    exists r, c :: r !in gone && Hits(S, db, r, c, NoAction, gone)
  }

  // ---------------------------------------------------------------- the declarative reading

  /** Every row with a CASCADE reference into `D` is in `D`. */
  ghost predicate Closed<T(!new), C(!new)>(S: Schema<T, C>, db: Db<T, C>, D: set<Ref<T>>) {
    forall r, c :: Hits(S, db, r, c, Cascade, D) ==> r in D
  }

  /** The rows contained in every set that holds the targets and is closed under CASCADE. */
  ghost function Doomed<T(!new), C(!new)>(S: Schema<T, C>, db: Db<T, C>, X: set<Ref<T>>): set<Ref<T>> {
    set r | r in db && forall D: set<Ref<T>> :: X <= D && Closed(S, db, D) ==> r in D
  }

  /** A row that survives: its SET NULL references to removed rows are null, nothing else differs. */
  function Scrubbed<T(==), C(==)>(S: Schema<T, C>, t: T, row: Row<C>, gone: set<Ref<T>>): Row<C> {
    row.(refs := map c | c in row.refs ::
      if Target(S, t, row, c).Some? && Target(S, t, row, c).value in gone && S.decl(t, c).value.onDelete == SetNull
      then None else row.refs[c])
  }

  function After<T(==), C(==)>(S: Schema<T, C>, db: Db<T, C>, gone: set<Ref<T>>): Db<T, C> {
    map r | r in db && r !in gone :: Scrubbed(S, r.table, db[r], gone)
  }

  datatype Outcome<T, C> = Committed(db: Db<T, C>) | Rejected

  /** The statement as a function of the state it starts in. */
  ghost function Delete<T(!new), C(!new)>(S: Schema<T, C>, db: Db<T, C>, X: set<Ref<T>>): Outcome<T, C> {
    var gone := Doomed(S, db, X);
    if ViolatesNoAction(S, db, gone) then Rejected else Committed(After(S, db, gone))
  }

  /** `Doomed` is itself such a set, so it is the least one. */
  lemma DoomedIsLeast<T(!new), C(!new)>(S: Schema<T, C>, db: Db<T, C>, X: set<Ref<T>>)
    requires X <= db.Keys
    ensures X <= Doomed(S, db, X) <= db.Keys
    ensures Closed(S, db, Doomed(S, db, X))
    ensures forall D :: X <= D && Closed(S, db, D) ==> Doomed(S, db, X) <= D
  {
    var C := Doomed(S, db, X);
    forall r, c | Hits(S, db, r, c, Cascade, C)
      ensures r in C
    {
      forall D | X <= D && Closed(S, db, D)
        ensures r in D
      {
        assert Hits(S, db, r, c, Cascade, D);
      }
    }
  }

  lemma DoomedMinimal<T(!new), C(!new)>(S: Schema<T, C>, db: Db<T, C>, X: set<Ref<T>>, D: set<Ref<T>>)
    requires X <= D && Closed(S, db, D)
    ensures Doomed(S, db, X) <= D
  {
  }

  lemma DoomedClosed<T(!new), C(!new)>(S: Schema<T, C>, db: Db<T, C>, X: set<Ref<T>>)
    requires X <= db.Keys
    ensures X <= Doomed(S, db, X) && Closed(S, db, Doomed(S, db, X))
  {
    DoomedIsLeast(S, db, X);
  }

  lemma ClosedUnion<T(!new), C(!new)>(S: Schema<T, C>, db: Db<T, C>, A: set<Ref<T>>, B: set<Ref<T>>)
    requires Closed(S, db, A) && Closed(S, db, B)
    ensures Closed(S, db, A + B)
  {
    forall r, c | Hits(S, db, r, c, Cascade, A + B)
      ensures r in A + B
    {
      assert Hits(S, db, r, c, Cascade, A) || Hits(S, db, r, c, Cascade, B);
    }
  }

  lemma DoomedUnion<T(!new), C(!new)>(S: Schema<T, C>, db: Db<T, C>, X: set<Ref<T>>, Y: set<Ref<T>>)
    requires X <= db.Keys && Y <= db.Keys
    ensures Doomed(S, db, X + Y) == Doomed(S, db, X) + Doomed(S, db, Y)
  {
    DoomedClosed(S, db, X);
    DoomedClosed(S, db, Y);
    DoomedClosed(S, db, X + Y);
    ClosedUnion(S, db, Doomed(S, db, X), Doomed(S, db, Y));
    DoomedMinimal(S, db, X + Y, Doomed(S, db, X) + Doomed(S, db, Y));
    DoomedMinimal(S, db, X, Doomed(S, db, X + Y));
    DoomedMinimal(S, db, Y, Doomed(S, db, X + Y));
  }

  // ---------------------------------------------------------------- order independence

  /** What holds of every state the statement passes through. */
  ghost predicate Underway<T(!new), C(!new)>(S: Schema<T, C>, db: Db<T, C>, X: set<Ref<T>>, s: Deletion<T, C>) {
    && X <= s.gone <= Doomed(S, db, X)
    && s.db.Keys == db.Keys - s.gone
    && (forall r | r in s.db :: s.db[r].data == db[r].data && s.db[r].refs.Keys == db[r].refs.Keys)
    && (forall r, c | r in s.db && c in s.db[r].refs ::
          s.db[r].refs[c] == db[r].refs[c] || (s.db[r].refs[c] == None && Hits(S, db, r, c, SetNull, s.gone)))
  }

  lemma CascadeStaysUnderway<T(!new), C(!new)>(S: Schema<T, C>, db: Db<T, C>, X: set<Ref<T>>, s: Deletion<T, C>,
      r: Ref<T>, c: C)
    requires X <= db.Keys && Underway(S, db, X, s) && Hits(S, s.db, r, c, Cascade, s.gone)
    ensures Underway(S, db, X, Deletion(s.db - {r}, s.gone + {r}))
  {
    DoomedIsLeast(S, db, X);
    assert Hits(S, db, r, c, Cascade, Doomed(S, db, X));
    forall q, d | q in s.db && q != r && d in s.db[q].refs && s.db[q].refs[d] != db[q].refs[d]
      ensures Hits(S, db, q, d, SetNull, s.gone + {r})
    {
      assert Hits(S, db, q, d, SetNull, s.gone);
    }
  }

  lemma SetNullStaysUnderway<T(!new), C(!new)>(S: Schema<T, C>, db: Db<T, C>, X: set<Ref<T>>, s: Deletion<T, C>,
      r: Ref<T>, c: C)
    requires X <= db.Keys && Underway(S, db, X, s) && Hits(S, s.db, r, c, SetNull, s.gone)
    ensures Underway(S, db, X, Deletion(s.db[r := Nulled(s.db[r], c)], s.gone))
  {
    assert Hits(S, db, r, c, SetNull, s.gone);
  }

  lemma StepStaysUnderway<T(!new), C(!new)>(S: Schema<T, C>, db: Db<T, C>, X: set<Ref<T>>, s: Deletion<T, C>,
      s': Deletion<T, C>)
    requires X <= db.Keys && Underway(S, db, X, s) && Step(S, s, s')
    ensures Underway(S, db, X, s')
  {
    var r, c :| Fires(S, s, s', r, c);
    if Hits(S, s.db, r, c, Cascade, s.gone) && s' == Deletion(s.db - {r}, s.gone + {r}) {
      CascadeStaysUnderway(S, db, X, s, r, c);
    } else {
      SetNullStaysUnderway(S, db, X, s, r, c);
    }
  }

  lemma {:induction false} RunStaysUnderway<T(!new), C(!new)>(S: Schema<T, C>, db: Db<T, C>, X: set<Ref<T>>,
      run: seq<Deletion<T, C>>)
    requires X <= db.Keys && Run(S, run) && run[0] == Start(db, X)
    ensures Underway(S, db, X, run[|run| - 1])
  {
    if |run| == 1 {
      DoomedIsLeast(S, db, X);
    } else {
      var before := run[..|run| - 1];
      RunStaysUnderway(S, db, X, before);
      StepStaysUnderway(S, db, X, run[|run| - 2], run[|run| - 1]);
    }
  }

  lemma QuiescentIsFinal<T(!new), C(!new)>(S: Schema<T, C>, db: Db<T, C>, X: set<Ref<T>>, s: Deletion<T, C>)
    requires X <= db.Keys && Underway(S, db, X, s) && Quiescent(S, s)
    ensures s.gone == Doomed(S, db, X)
    ensures s.db == After(S, db, s.gone)
    ensures ViolatesNoAction(S, s.db, s.gone) <==> ViolatesNoAction(S, db, s.gone)
  {
    DoomedIsLeast(S, db, X);
    forall r, c | Hits(S, db, r, c, Cascade, s.gone)
      ensures r in s.gone
    {
      if r !in s.gone {
        assert Hits(S, s.db, r, c, Cascade, s.gone);
      }
    }
    assert Closed(S, db, s.gone);
    forall r, c | r in s.db && c in s.db[r].refs
      ensures s.db[r].refs[c] == Scrubbed(S, r.table, db[r], s.gone).refs[c]
    {
      assert !Hits(S, s.db, r, c, SetNull, s.gone);
    }
    forall r, c | r !in s.gone
      ensures Hits(S, s.db, r, c, NoAction, s.gone) <==> Hits(S, db, r, c, NoAction, s.gone)
    {
    }
    forall r | r in s.db
      ensures s.db[r] == Scrubbed(S, r.table, db[r], s.gone)
    {
      assert s.db[r].refs == Scrubbed(S, r.table, db[r], s.gone).refs;
    }
    assert s.db == After(S, db, s.gone);
  }

  /** Whatever the order of firing, a run that has come to rest has done what `Delete` says. */
  lemma OrderIndependence<T(!new), C(!new)>(S: Schema<T, C>, db: Db<T, C>, X: set<Ref<T>>, run: seq<Deletion<T, C>>)
    requires X <= db.Keys && Run(S, run) && run[0] == Start(db, X) && Quiescent(S, run[|run| - 1])
    ensures
      var s := run[|run| - 1];
      Delete(S, db, X) == if ViolatesNoAction(S, s.db, s.gone) then Rejected else Committed(s.db)
  {
    RunStaysUnderway(S, db, X, run);
    QuiescentIsFinal(S, db, X, run[|run| - 1]);
  }

  // ---------------------------------------------------------------- termination

  /** The non-null foreign-key values of a database. */
  ghost function NonNull<T(!new), C(!new)>(db: Db<T, C>): set<(Ref<T>, C)> {
    set r, c | r in db && c in db[r].refs && db[r].refs[c].Some? :: (r, c)
  }

  /** Every firing removes a row, or keeps the rows and removes a non-null value. */
  lemma FiringShrinks<T(!new), C(!new)>(S: Schema<T, C>, s: Deletion<T, C>, s': Deletion<T, C>)
    requires Step(S, s, s')
    ensures |s'.db| < |s.db| || (|s'.db| == |s.db| && |NonNull(s'.db)| < |NonNull(s.db)|)
  {
    var r, c :| Fires(S, s, s', r, c);
    if Hits(S, s.db, r, c, Cascade, s.gone) && s' == Deletion(s.db - {r}, s.gone + {r}) {
      assert s.db.Keys == s'.db.Keys + {r};
      assert |s'.db.Keys| < |s.db.Keys|;
    } else {
      assert s'.db.Keys == s.db.Keys;
      assert |s'.db.Keys| == |s.db.Keys|;
      assert NonNull(s.db) == NonNull(s'.db) + {(r, c)};
    }
  }

  /** No run goes on for ever: each can be continued to one that has come to rest. */
  lemma {:induction false} RunsComeToRest<T(!new), C(!new)>(S: Schema<T, C>, run: seq<Deletion<T, C>>)
      returns (whole: seq<Deletion<T, C>>)
    requires Run(S, run)
    ensures run <= whole && Run(S, whole) && Quiescent(S, whole[|whole| - 1])
    decreases |run[|run| - 1].db|, |NonNull(run[|run| - 1].db)|
  {
    var s := run[|run| - 1];
    if Quiescent(S, s) {
      whole := run;
    } else {
      var r, c :| Hits(S, s.db, r, c, Cascade, s.gone) || Hits(S, s.db, r, c, SetNull, s.gone);
      var s' := if Hits(S, s.db, r, c, Cascade, s.gone)
                then Deletion(s.db - {r}, s.gone + {r})
                else Deletion(s.db[r := Nulled(s.db[r], c)], s.gone);
      assert Fires(S, s, s', r, c);
      FiringShrinks(S, s, s');
      whole := RunsComeToRest(S, run + [s']);
    }
  }

  // ---------------------------------------------------------------- constraints survive

  lemma DeleteKeepsGood<T(!new), C(!new)>(S: Schema<T, C>, db: Db<T, C>, X: set<Ref<T>>)
    requires WellFormed(S) && Good(S, db) && X <= db.Keys && Delete(S, db, X).Committed?
    ensures Good(S, Delete(S, db, X).db)
  {
    DoomedIsLeast(S, db, X);
    var gone := Doomed(S, db, X);
    var db' := After(S, db, gone);
    forall r, c | r in db' && S.decl(r.table, c).Some?
      ensures c in db'[r].refs
      ensures db'[r].refs[c].None? ==> S.decl(r.table, c).value.nullable
      ensures db'[r].refs[c].Some? ==> Ref(S.decl(r.table, c).value.parent, db'[r].refs[c].value) in db'
    {
      if db'[r].refs[c].Some? {
        assert !Hits(S, db, r, c, Cascade, gone);
        assert !Hits(S, db, r, c, NoAction, gone);
      }
    }
  }

  /** A survivor still refers to what it referred to through every key that is not SET NULL, and that row survives. */
  lemma SurvivorsKeepParents<T(!new), C(!new)>(S: Schema<T, C>, db: Db<T, C>, X: set<Ref<T>>, r: Ref<T>, c: C)
    requires Integrity(S, db) && X <= db.Keys && Delete(S, db, X).Committed? && r in Delete(S, db, X).db
    requires Target(S, r.table, db[r], c).Some? && S.decl(r.table, c).value.onDelete != SetNull
    ensures Target(S, r.table, Delete(S, db, X).db[r], c) == Target(S, r.table, db[r], c)
    ensures Target(S, r.table, db[r], c).value in Delete(S, db, X).db
  {
    var gone := Doomed(S, db, X);
    DoomedIsLeast(S, db, X);
    assert !Hits(S, db, r, c, Cascade, gone) && !Hits(S, db, r, c, NoAction, gone);
  }

  // ---------------------------------------------------------------- regions of a database

  lemma ScrubbedNowhere<T(!new), C(!new)>(S: Schema<T, C>, t: T, row: Row<C>, gone: set<Ref<T>>)
    requires forall c | Target(S, t, row, c).Some? :: Target(S, t, row, c).value !in gone
    ensures Scrubbed(S, t, row, gone) == row
  {
    assert Scrubbed(S, t, row, gone).refs == row.refs;
  }

  lemma ScrubbedTwice<T(!new), C(!new)>(S: Schema<T, C>, t: T, row: Row<C>, A: set<Ref<T>>, B: set<Ref<T>>)
    ensures Scrubbed(S, t, Scrubbed(S, t, row, A), B) == Scrubbed(S, t, row, A + B)
  {
    forall c | c in row.refs
      ensures Scrubbed(S, t, Scrubbed(S, t, row, A), B).refs[c] == Scrubbed(S, t, row, A + B).refs[c]
    {
    }
    assert Scrubbed(S, t, Scrubbed(S, t, row, A), B).refs == Scrubbed(S, t, row, A + B).refs;
  }

  /** Two deletes one after the other null what one delete of all their rows would. */
  lemma AfterTwice<T(!new), C(!new)>(S: Schema<T, C>, db: Db<T, C>, A: set<Ref<T>>, B: set<Ref<T>>)
    ensures After(S, After(S, db, A), B) == After(S, db, A + B)
  {
    var once, twice := After(S, db, A + B), After(S, After(S, db, A), B);
    assert once.Keys == twice.Keys;
    forall r | r in once
      ensures twice[r] == once[r]
    {
      ScrubbedTwice(S, r.table, db[r], A, B);
    }
  }

  /** What a delete leaves of the CASCADE and NO ACTION references. */
  lemma HitsAfter<T(!new), C(!new)>(S: Schema<T, C>, db: Db<T, C>, A: set<Ref<T>>,
      r: Ref<T>, c: C, a: Action, P: set<Ref<T>>)
    requires a != SetNull
    ensures Hits(S, After(S, db, A), r, c, a, P) <==> r !in A && Hits(S, db, r, c, a, P)
  {
  }

  /** Column `c` of row `r`, which is not in `E`, is a non-null foreign key. */
  predicate Outside<T(==), C(==)>(S: Schema<T, C>, db: Db<T, C>, E: set<Ref<T>>, r: Ref<T>, c: C) {
    r in db && r !in E && Target(S, r.table, db[r], c).Some?
  }

  /** A row that is not in `E` refers to a row in `P`. */
  ghost predicate RefersInto<T(!new), C(!new)>(S: Schema<T, C>, db: Db<T, C>, E: set<Ref<T>>, P: set<Ref<T>>) {
    exists r, c :: Outside(S, db, E, r, c) && Target(S, r.table, db[r], c).value in P
  }

  /** The rows that are not in `E` are all there and as they were. */
  ghost predicate OthersUntouched<T(!new), C(!new)>(db: Db<T, C>, db': Db<T, C>, E: set<Ref<T>>) {
    forall r | r in db && r !in E :: r in db' && db'[r] == db[r]
  }

  /** What no row outside refers to dooms no row outside. */
  lemma DoomedWithin<T(!new), C(!new)>(S: Schema<T, C>, db: Db<T, C>, X: set<Ref<T>>, E: set<Ref<T>>)
    requires X <= E <= db.Keys && !RefersInto(S, db, E, Doomed(S, db, X))
    ensures Doomed(S, db, X) <= E
  {
    var gone := Doomed(S, db, X);
    DoomedIsLeast(S, db, X);
    forall r, c | Hits(S, db, r, c, Cascade, gone * E)
      ensures r in gone * E
    {
      assert Hits(S, db, r, c, Cascade, gone);
      assert !Outside(S, db, E, r, c);
    }
    assert Closed(S, db, gone * E);
  }

  lemma InsularDoom<T(!new), C(!new)>(S: Schema<T, C>, db: Db<T, C>, X: set<Ref<T>>, E: set<Ref<T>>)
    requires X <= E <= db.Keys && !RefersInto(S, db, E, E)
    ensures Doomed(S, db, X) <= E
  {
    DoomedIsLeast(S, db, X);
    forall r, c | Hits(S, db, r, c, Cascade, E)
      ensures r in E
    {
      assert !Outside(S, db, E, r, c);
    }
    assert Closed(S, db, E);
  }

  lemma OutsideKept<T(!new), C(!new)>(S: Schema<T, C>, db: Db<T, C>, E: set<Ref<T>>, gone: set<Ref<T>>, r: Ref<T>)
    requires !RefersInto(S, db, E, gone) && r in db && r !in E
    ensures Scrubbed(S, r.table, db[r], gone) == db[r]
  {
    forall c | Target(S, r.table, db[r], c).Some?
      ensures Target(S, r.table, db[r], c).value !in gone
    {
      assert Outside(S, db, E, r, c);
    }
    ScrubbedNowhere(S, r.table, db[r], gone);
  }

  /** A row outside that refers to a removed one is removed itself, or changed. */
  lemma OutsideHit<T(!new), C(!new)>(S: Schema<T, C>, db: Db<T, C>, X: set<Ref<T>>, E: set<Ref<T>>, r: Ref<T>, c: C)
    requires X <= db.Keys && Delete(S, db, X).Committed?
    requires Outside(S, db, E, r, c) && Target(S, r.table, db[r], c).value in Doomed(S, db, X)
    ensures !OthersUntouched(db, Delete(S, db, X).db, E)
  {
    var gone := Doomed(S, db, X);
    DoomedIsLeast(S, db, X);
    if r !in gone {
      assert !Hits(S, db, r, c, Cascade, gone) && !Hits(S, db, r, c, NoAction, gone);
      assert Hits(S, db, r, c, SetNull, gone);
      assert Scrubbed(S, r.table, db[r], gone).refs[c] == None;
    }
  }

  /** A delete within a region leaves the rest alone exactly when no row of the rest refers to a row that goes. */
  lemma DeleteStaysWithinIff<T(!new), C(!new)>(S: Schema<T, C>, db: Db<T, C>, X: set<Ref<T>>, E: set<Ref<T>>)
    requires X <= E <= db.Keys && Delete(S, db, X).Committed?
    ensures OthersUntouched(db, Delete(S, db, X).db, E) <==> !RefersInto(S, db, E, Doomed(S, db, X))
  {
    var gone := Doomed(S, db, X);
    if !RefersInto(S, db, E, gone) {
      DoomedWithin(S, db, X, E);
      forall r | r in db && r !in E
        ensures r !in gone && Scrubbed(S, r.table, db[r], gone) == db[r]
      {
        OutsideKept(S, db, E, gone, r);
      }
    } else {
      var r, c :| Outside(S, db, E, r, c) && Target(S, r.table, db[r], c).value in gone;
      OutsideHit(S, db, X, E, r, c);
    }
  }

  /** A delete that takes the whole region takes nothing else, exactly when nothing else refers into the region. */
  lemma DeleteTakesRegionIff<T(!new), C(!new)>(S: Schema<T, C>, db: Db<T, C>, X: set<Ref<T>>, E: set<Ref<T>>)
    requires X <= E <= Doomed(S, db, X) && Delete(S, db, X).Committed?
    ensures Delete(S, db, X).db == db - E <==> !RefersInto(S, db, E, E)
  {
    if !RefersInto(S, db, E, E) {
      InsularDoom(S, db, X, E);
      assert Doomed(S, db, X) == E;
      DeleteStaysWithinIff(S, db, X, E);
      assert Delete(S, db, X).db.Keys == (db - E).Keys;
    } else {
      var r, c :| Outside(S, db, E, r, c) && Target(S, r.table, db[r], c).value in E;
      OutsideHit(S, db, X, E, r, c);
    }
  }

  // ---------------------------------------------------------------- the checks of a write

  /** The checks one INSERT or UPDATE of row `r` makes: its own references and its own unique values. */
  ghost predicate Fits<T(!new), C(!new)>(S: Schema<T, C>, db: Db<T, C>, r: Ref<T>, row: Row<C>) {
    && (forall c | S.decl(r.table, c).Some? ::
          && c in row.refs
          && (row.refs[c].None? ==> S.decl(r.table, c).value.nullable)
          && (row.refs[c].Some? ==>
                var p := Ref(S.decl(r.table, c).value.parent, row.refs[c].value); p == r || p in db))
    && (forall q, c | q in db && q != r && q.table == r.table && S.unique(r.table, c)
                      && c in db[q].refs && c in row.refs && row.refs[c].Some? ::
          db[q].refs[c] != row.refs[c])
  }

  /** Those local checks accept a row exactly when the whole database stays good. */
  lemma FitsIffGood<T(!new), C(!new)>(S: Schema<T, C>, db: Db<T, C>, r: Ref<T>, row: Row<C>)
    requires Good(S, db)
    ensures Fits(S, db, r, row) <==> Good(S, db[r := row])
  {
    var db' := db[r := row];
    if Fits(S, db, r, row) {
      assert Good(S, db');
    }
    if Good(S, db') {
      forall c | S.decl(r.table, c).Some?
        ensures c in row.refs
        ensures row.refs[c].None? ==> S.decl(r.table, c).value.nullable
        ensures row.refs[c].Some? ==>
                  var p := Ref(S.decl(r.table, c).value.parent, row.refs[c].value); p == r || p in db
      {
        assert r in db';
      }
      forall q, c | q in db && q != r && q.table == r.table && S.unique(r.table, c)
                    && c in db[q].refs && c in row.refs && row.refs[c].Some?
        ensures db[q].refs[c] != row.refs[c]
      {
        assert q in db' && db'[q] == db[q];
      }
    }
  }

  // ---------------------------------------------------------------- statements and histories

  /** Put inserts a new row or updates an existing one; Remove deletes a set of rows. */
  datatype Statement<T(==), C(==)> = Put(ref: Ref<T>, row: Row<C>) | Remove(targets: set<Ref<T>>)

  /** A statement that a constraint rejects changes nothing; a DELETE ignores rows that are not there. */
  ghost function Execute<T(!new), C(!new)>(S: Schema<T, C>, db: Db<T, C>, stmt: Statement<T, C>): Db<T, C> {
    match stmt
    case Put(r, row) => if Fits(S, db, r, row) then db[r := row] else db
    case Remove(X) =>
      match Delete(S, db, X * db.Keys)
      case Committed(db') => db'
      case Rejected => db
  }

  /** A DELETE that no NO ACTION key forbids leaves none of its targets; a forbidden one changes nothing. */
  lemma RemoveTakesEffect<T(!new), C(!new)>(S: Schema<T, C>, db: Db<T, C>, X: set<Ref<T>>)
    ensures
      var gone := Doomed(S, db, X * db.Keys);
      var forbidden := exists r, c :: r !in gone && Hits(S, db, r, c, NoAction, gone);
      var db' := Execute(S, db, Remove(X));
      if forbidden then db' == db else db'.Keys == db.Keys - gone && db'.Keys !! X
  {
    DoomedIsLeast(S, db, X * db.Keys);
  }

  /** An INSERT or UPDATE is carried out exactly when the database stays good, and touches its own row only. */
  lemma PutTakesEffect<T(!new), C(!new)>(S: Schema<T, C>, db: Db<T, C>, r: Ref<T>, row: Row<C>)
    requires Good(S, db)
    ensures Execute(S, db, Put(r, row)) == if Good(S, db[r := row]) then db[r := row] else db
  {
    FitsIffGood(S, db, r, row);
  }

  ghost function ExecuteAll<T(!new), C(!new)>(S: Schema<T, C>, db: Db<T, C>, stmts: seq<Statement<T, C>>): Db<T, C>
    decreases |stmts|
  {
    if stmts == [] then db else ExecuteAll(S, Execute(S, db, stmts[0]), stmts[1..])
  }

  /** Over every history: no foreign key dangles, no non-nullable one is null, UNIQUE columns stay unique. */
  lemma {:induction false} HistoriesStayGood<T(!new), C(!new)>(S: Schema<T, C>, db: Db<T, C>,
      stmts: seq<Statement<T, C>>)
    requires WellFormed(S) && Good(S, db)
    ensures Good(S, ExecuteAll(S, db, stmts))
    decreases |stmts|
  {
    if stmts != [] {
      match stmts[0] {
        case Put(r, row) => FitsIffGood(S, db, r, row);
        case Remove(X) =>
          if Delete(S, db, X * db.Keys).Committed? {
            DeleteKeepsGood(S, db, X * db.Keys);
          }
      }
      HistoriesStayGood(S, Execute(S, db, stmts[0]), stmts[1..]);
    }
  }

  // ---------------------------------------------------------------- one sweep in rank order

  /** CASCADE edges lead from a table to one of strictly higher rank. */
  ghost predicate Ranked<T(!new), C(!new)>(S: Schema<T, C>, rank: T -> nat) {
    forall t, c :: S.decl(t, c).Some? && S.decl(t, c).value.onDelete == Cascade ==>
      rank(S.decl(t, c).value.parent) < rank(t)
  }

  /** Rows of rank `k` with a CASCADE reference into `D`. */
  ghost function Layer<T(!new), C(!new)>(S: Schema<T, C>, db: Db<T, C>, rank: T -> nat, k: nat,
      D: set<Ref<T>>): set<Ref<T>>
  {
    set r | r in db && rank(r.table) == k && exists c :: Hits(S, db, r, c, Cascade, D)
  }

  /** Looks at the rows of rank below `k` once each, lower ranks first. */
  ghost function Sweep<T(!new), C(!new)>(S: Schema<T, C>, db: Db<T, C>, rank: T -> nat, k: nat,
      X: set<Ref<T>>): set<Ref<T>>
  {
    if k == 0 then X
    else
      var D := Sweep(S, db, rank, k - 1, X);
      D + Layer(S, db, rank, k - 1, D)
  }

  ghost predicate Follows<T(!new), C(!new)>(S: Schema<T, C>, db: Db<T, C>, r: Ref<T>, p: Ref<T>) {
    exists c :: Hits(S, db, r, c, Cascade, {p})
  }

  /** `chain` leads from a target to its last row, each row referring to the one before by CASCADE. */
  ghost predicate Chain<T(!new), C(!new)>(S: Schema<T, C>, db: Db<T, C>, X: set<Ref<T>>, chain: seq<Ref<T>>)
    decreases |chain|
  {
    var n := |chain| - 1;
    && n >= 0
    && if n == 0 then chain[0] in X else Follows(S, db, chain[n], chain[n - 1]) && Chain(S, db, X, chain[..n])
  }

  lemma {:induction false} SweepIsSound<T(!new), C(!new)>(S: Schema<T, C>, db: Db<T, C>, rank: T -> nat, k: nat,
      X: set<Ref<T>>)
    requires X <= db.Keys
    ensures X <= Sweep(S, db, rank, k, X) <= Doomed(S, db, X)
  {
    DoomedIsLeast(S, db, X);
    if k > 0 {
      SweepIsSound(S, db, rank, k - 1, X);
      var D := Sweep(S, db, rank, k - 1, X);
      forall r | r in Layer(S, db, rank, k - 1, D)
        ensures r in Doomed(S, db, X)
      {
        var c :| Hits(S, db, r, c, Cascade, D);
        assert Hits(S, db, r, c, Cascade, Doomed(S, db, X));
      }
    }
  }

  /** After `k` rounds nothing of rank below `k` is missing, and nothing of rank `k` or more was added. */
  lemma {:induction false} SweepIsClosed<T(!new), C(!new)>(S: Schema<T, C>, db: Db<T, C>, rank: T -> nat, k: nat,
      X: set<Ref<T>>)
    requires Ranked(S, rank)
    ensures forall r | r in Sweep(S, db, rank, k, X) - X :: rank(r.table) < k
    ensures forall r: Ref<T>, c :: rank(r.table) < k && Hits(S, db, r, c, Cascade, Sweep(S, db, rank, k, X)) ==>
            r in Sweep(S, db, rank, k, X)
  {
    if k > 0 {
      SweepIsClosed(S, db, rank, k - 1, X);
      var D := Sweep(S, db, rank, k - 1, X);
      var D' := Sweep(S, db, rank, k, X);
      forall r: Ref<T>, c | rank(r.table) < k && Hits(S, db, r, c, Cascade, D')
        ensures r in D'
      {
        var p := Target(S, r.table, db[r], c).value;
        assert rank(p.table) < rank(r.table);
        assert p in D;
        assert Hits(S, db, r, c, Cascade, D);
      }
    }
  }

  /** One sweep of the tables in rank order computes the least closed set. */
  lemma SweepIsDoomed<T(!new), C(!new)>(S: Schema<T, C>, db: Db<T, C>, rank: T -> nat, k: nat, X: set<Ref<T>>)
    requires Ranked(S, rank) && X <= db.Keys && (forall t :: rank(t) < k)
    ensures Sweep(S, db, rank, k, X) == Doomed(S, db, X)
  {
    SweepIsSound(S, db, rank, k, X);
    SweepIsClosed(S, db, rank, k, X);
    DoomedIsLeast(S, db, X);
    assert Closed(S, db, Sweep(S, db, rank, k, X));
  }

  lemma {:induction false} SweepHasChains<T(!new), C(!new)>(S: Schema<T, C>, db: Db<T, C>, rank: T -> nat, k: nat,
      X: set<Ref<T>>, r: Ref<T>)
      returns (chain: seq<Ref<T>>)
    requires Ranked(S, rank) && X <= db.Keys && r in Sweep(S, db, rank, k, X)
    ensures Chain(S, db, X, chain) && chain[|chain| - 1] == r && |chain| <= rank(r.table) - rank(chain[0].table) + 1
    decreases k
  {
    if r in X {
      chain := [r];
    } else {
      var D := Sweep(S, db, rank, k - 1, X);
      if r in D {
        chain := SweepHasChains(S, db, rank, k - 1, X, r);
      } else {
        var c :| Hits(S, db, r, c, Cascade, D);
        var p := Target(S, r.table, db[r], c).value;
        var front := SweepHasChains(S, db, rank, k - 1, X, p);
        assert Hits(S, db, r, c, Cascade, {p});
        chain := front + [r];
        assert chain[..|front|] == front;
      }
    }
  }

  lemma {:induction false} ChainIsDoomed<T(!new), C(!new)>(S: Schema<T, C>, db: Db<T, C>, X: set<Ref<T>>,
      chain: seq<Ref<T>>)
    requires X <= db.Keys && Chain(S, db, X, chain)
    ensures chain[|chain| - 1] in Doomed(S, db, X)
    decreases |chain|
  {
    DoomedIsLeast(S, db, X);
    if |chain| > 1 {
      ChainIsDoomed(S, db, X, chain[..|chain| - 1]);
      var c :| Hits(S, db, chain[|chain| - 1], c, Cascade, {chain[|chain| - 2]});
      assert Hits(S, db, chain[|chain| - 1], c, Cascade, Doomed(S, db, X));
    }
  }

  /** A row is removed exactly when a CASCADE chain, no longer than the ranks allow, leads to it. */
  lemma DoomedIffChain<T(!new), C(!new)>(S: Schema<T, C>, db: Db<T, C>, rank: T -> nat, k: nat, X: set<Ref<T>>,
      r: Ref<T>)
    requires Ranked(S, rank) && X <= db.Keys && (forall t :: rank(t) < k)
    ensures r in Doomed(S, db, X) <==>
            exists chain :: Chain(S, db, X, chain) && chain[|chain| - 1] == r && |chain| <= k
  {
    SweepIsDoomed(S, db, rank, k, X);
    if r in Doomed(S, db, X) {
      var chain := SweepHasChains(S, db, rank, k, X, r);
      assert rank(r.table) < k;
    }
    forall chain | Chain(S, db, X, chain) && chain[|chain| - 1] == r
      ensures r in Doomed(S, db, X)
    {
      ChainIsDoomed(S, db, X, chain);
    }
  }
}
