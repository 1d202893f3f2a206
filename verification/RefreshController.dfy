/**
 The de-duplicating refresh controller of the web client: one record per realm, a back-off after
 a failed refresh, and a reset that drops the record but not a promise already made with it.
 */
module RefreshController {
  import opened Common

  const BACKOFF_MS := 15_000
  const BLOCKED := "refresh temporarily blocked"
  const TYPE_ERROR := "Cannot read properties of null"

  /** The JSON object a token endpoint answers with; a missing member and a null one are alike. */
  datatype Grant = Grant(access: Option<string>, refresh: Option<string>, id: Option<string>)

  /** How a refresh request ends: a JSON object, a JSON null, or any thrown error. */
  datatype Answer = Body(grant: Grant) | NullBody | Error(message: string)

  /** A refresh is started by a fetcher call's 401, or by the useAuth hook's expiry timer. */
  datatype Starter = ByCall(call: nat) | ByHook

  /** Pending until its request is answered; cleared once the controller's finally clause has run. */
  datatype Phase = Pending | Settled(answer: Answer, at: nat) | Cleared(answer: Answer, at: nat)

  /** One promise made by a factory, and the record it was made with. */
  datatype Flight = Flight(record: nat, starter: Starter, presented: string, openedAt: nat, phase: Phase)

  /** What the flight's promise fulfils with. */
  datatype Outcome = Tokens(grant: Grant) | Undefined | Thrown(message: string)

  function OutcomeOf(starter: Starter, answer: Answer): Outcome {
    match (starter, answer)
    case (_, Error(m)) => Thrown(m)
    case (ByCall(_), Body(g)) => Tokens(g)
    case (ByCall(_), NullBody) => Undefined
    case (ByHook, Body(_)) => Undefined       // the hook stores the tokens itself and returns nothing
    case (ByHook, NullBody) => Thrown(TYPE_ERROR)
  }

  predicate Open(f: Flight) {
    !f.phase.Cleared?
  }

  predicate Failed(f: Flight) {
    !f.phase.Pending? && OutcomeOf(f.starter, f.phase.answer).Thrown?
  }

  /** The controller's record for a realm; `epoch` counts the resets of the realm before it was made. */
  datatype Record = Record(realm: string, epoch: nat, blockedUntil: nat, inFlight: Option<nat>)

  datatype Controller = Controller(
    table: map<string, nat>,        // realm -> its current record
    records: seq<Record>,           // every record ever made
    flights: seq<Flight>,           // every promise ever made
    resets: map<string, nat>)       // history: how often each realm was reset

  const FRESH := Controller(map[], [], [], map[])

  function Epoch(c: Controller, realm: string): nat {
    if realm in c.resets then c.resets[realm] else 0
  }

  /** Record pointers are in range. */
  predicate Indexed(c: Controller) {
    && (forall r | r in c.table :: c.table[r] < |c.records|)
    && (forall f | 0 <= f < |c.flights| :: c.flights[f].record < |c.records|)
  }

  function RealmOf(c: Controller, f: nat): string
    requires f < |c.flights| && c.flights[f].record < |c.records|
  {
    c.records[c.flights[f].record].realm
  }

  // ---------------------------------------------------------------- the operations

  /** getState */
  function WithRecord(c: Controller, realm: string): Controller {
    if realm in c.table then c
    else c.(table := c.table[realm := |c.records|], records := c.records + [Record(realm, Epoch(c, realm), 0, None)])
  }

  function Launch(c: Controller, now: nat, k: nat, starter: Starter, presented: string): Controller
    requires k < |c.records|
  {
    c.(flights := c.flights + [Flight(k, starter, presented, now, Pending)],
       records := c.records[k := c.records[k].(inFlight := Some(|c.flights|))])
  }

  /** run: the flight to await, or None when the attempt is refused with BLOCKED. */
  function Run(c: Controller, now: nat, realm: string, starter: Starter, presented: string): (Controller, Option<nat>)
    requires Indexed(c)
  {
    var c1 := WithRecord(c, realm);
    var k := c1.table[realm];
    if c1.records[k].inFlight.Some? then (c1, c1.records[k].inFlight)
    else if c1.records[k].blockedUntil > now then (c1, None)
    else (Launch(c1, now, k, starter, presented), Some(|c.flights|))
  }

  /** reset */
  function Reset(c: Controller, realm: string): Controller {
    c.(table := c.table - {realm}, resets := c.resets[realm := Epoch(c, realm) + 1])
  }

  /** The then and catch clauses: flight `f` is answered; the record forgets its back-off or starts one. */
  function Settle(c: Controller, now: nat, f: nat, answer: Answer): Controller
    requires f < |c.flights| && c.flights[f].record < |c.records|
  {
    var k := c.flights[f].record;
    var until := if OutcomeOf(c.flights[f].starter, answer).Thrown? then now + BACKOFF_MS else 0;
    c.(flights := c.flights[f := c.flights[f].(phase := Settled(answer, now))],
       records := c.records[k := c.records[k].(blockedUntil := until)])
  }

  /** The finally clause. */
  function Clear(c: Controller, f: nat): Controller
    requires f < |c.flights| && c.flights[f].record < |c.records| && c.flights[f].phase.Settled?
  {
    var k := c.flights[f].record;
    var p := c.flights[f].phase;
    c.(flights := c.flights[f := c.flights[f].(phase := Cleared(p.answer, p.at))],
       records := c.records[k := c.records[k].(inFlight := None)])
  }

  // ---------------------------------------------------------------- invariants

  /** One record per realm and epoch, and the current one is in the table. */
  ghost predicate Tabled(c: Controller) {
    && Indexed(c)
    && (forall r | r in c.table :: c.records[c.table[r]].realm == r && c.records[c.table[r]].epoch == Epoch(c, r))
    && (forall k | 0 <= k < |c.records| ::
          && c.records[k].epoch <= Epoch(c, c.records[k].realm)
          && (c.records[k].epoch == Epoch(c, c.records[k].realm) ==>
                c.records[k].realm in c.table && c.table[c.records[k].realm] == k))
    && (forall j, k | 0 <= j < |c.records| && 0 <= k < |c.records|
                      && c.records[j].realm == c.records[k].realm && c.records[j].epoch == c.records[k].epoch :: j == k)
  }

  /** A record points at a flight for exactly as long as that flight is open. */
  ghost predicate Pointing(c: Controller) {
    && Indexed(c)
    && (forall k | 0 <= k < |c.records| && c.records[k].inFlight.Some? ::
          var f := c.records[k].inFlight.value; f < |c.flights| && c.flights[f].record == k && Open(c.flights[f]))
    && (forall f | 0 <= f < |c.flights| && Open(c.flights[f]) :: c.records[c.flights[f].record].inFlight == Some(f))
  }

  /** A record is used again only when its last flight is over, and never within the back-off of a failed one. */
  ghost predicate Spaced(c: Controller, now: nat) {
    && Indexed(c)
    && (forall f | 0 <= f < |c.flights| :: c.flights[f].openedAt <= now)
    && (forall f | 0 <= f < |c.flights| && Failed(c.flights[f]) ::
          || c.flights[f].phase.at + BACKOFF_MS <= now
          || c.flights[f].phase.at + BACKOFF_MS <= c.records[c.flights[f].record].blockedUntil)
    && (forall f, g | 0 <= f < g < |c.flights| && c.flights[f].record == c.flights[g].record ::
          && !Open(c.flights[f])
          && (Failed(c.flights[f]) ==> c.flights[f].phase.at + BACKOFF_MS <= c.flights[g].openedAt))
  }

  ghost predicate Sound(c: Controller, now: nat) {
    Tabled(c) && Pointing(c) && Spaced(c, now)
  }

  lemma NewRecordTabled(c: Controller, c': Controller, realm: string)
    requires Tabled(c) && realm !in c.table && c' == WithRecord(c, realm)
    ensures Tabled(c')
  {
    assert forall r :: Epoch(c', r) == Epoch(c, r);
    assert c'.records[|c.records|] == Record(realm, Epoch(c, realm), 0, None);
    forall k | 0 <= k < |c.records|
      ensures c'.records[k] == c.records[k]
      ensures c.records[k].realm == realm ==> c.records[k].epoch < Epoch(c, realm)
    {
    }
  }

  lemma WithRecordTabled(c: Controller, realm: string)
    requires Tabled(c)
    ensures Tabled(WithRecord(c, realm)) && realm in WithRecord(c, realm).table
  {
    if realm !in c.table {
      NewRecordTabled(c, WithRecord(c, realm), realm);
    }
  }

  lemma WithRecordPointing(c: Controller, realm: string)
    requires Pointing(c)
    ensures Pointing(WithRecord(c, realm))
  {
  }

  lemma WithRecordSpaced(c: Controller, now: nat, realm: string)
    requires Spaced(c, now)
    ensures Spaced(WithRecord(c, realm), now)
  {
    assert WithRecord(c, realm).flights == c.flights;
  }

  lemma WithRecordSound(c: Controller, now: nat, realm: string)
    requires Sound(c, now)
    ensures Sound(WithRecord(c, realm), now)
    ensures realm in WithRecord(c, realm).table
  {
    WithRecordTabled(c, realm);
    WithRecordPointing(c, realm);
    WithRecordSpaced(c, now, realm);
  }

  /** Tabled looks at realms and epochs only. */
  lemma TabledFrame(c: Controller, c': Controller)
    requires Tabled(c) && Indexed(c')
    requires c'.table == c.table && c'.resets == c.resets && |c'.records| == |c.records|
    requires forall k | 0 <= k < |c.records| ::
               c'.records[k].realm == c.records[k].realm && c'.records[k].epoch == c.records[k].epoch
    ensures Tabled(c')
  {
    assert forall r :: Epoch(c', r) == Epoch(c, r);
  }

  lemma LaunchPointing(c: Controller, k: nat, starter: Starter, presented: string, now: nat)
    requires Pointing(c) && k < |c.records| && c.records[k].inFlight.None?
    ensures Pointing(Launch(c, now, k, starter, presented))
  {
  }

  lemma LaunchSpaced(c: Controller, now: nat, k: nat, starter: Starter, presented: string)
    requires Pointing(c) && Spaced(c, now) && k < |c.records|
    requires c.records[k].inFlight.None? && c.records[k].blockedUntil <= now
    ensures Spaced(Launch(c, now, k, starter, presented), now)
  {
    var c' := Launch(c, now, k, starter, presented);
    forall f, g | 0 <= f < g < |c'.flights| && c'.flights[f].record == c'.flights[g].record
      ensures !Open(c'.flights[f])
      ensures Failed(c'.flights[f]) ==> c'.flights[f].phase.at + BACKOFF_MS <= c'.flights[g].openedAt
    {
      assert c'.flights[f] == c.flights[f];
    }
  }

  lemma LaunchSound(c: Controller, now: nat, k: nat, starter: Starter, presented: string)
    requires Sound(c, now) && k < |c.records| && c.records[k].inFlight.None? && c.records[k].blockedUntil <= now
    ensures Sound(Launch(c, now, k, starter, presented), now)
  {
    LaunchPointing(c, k, starter, presented, now);
    LaunchSpaced(c, now, k, starter, presented);
    TabledFrame(c, Launch(c, now, k, starter, presented));
  }

  lemma RunSound(c: Controller, now: nat, realm: string, starter: Starter, presented: string)
    requires Sound(c, now)
    ensures Sound(Run(c, now, realm, starter, presented).0, now)
  {
    var c1 := WithRecord(c, realm);
    WithRecordSound(c, now, realm);
    var k := c1.table[realm];
    if c1.records[k].inFlight.None? && c1.records[k].blockedUntil <= now {
      LaunchSound(c1, now, k, starter, presented);
    }
  }

  lemma ResetTabled(c: Controller, realm: string)
    requires Tabled(c)
    ensures Tabled(Reset(c, realm))
  {
    assert forall r | r != realm :: Epoch(Reset(c, realm), r) == Epoch(c, r);
  }

  lemma ResetSound(c: Controller, now: nat, realm: string)
    requires Sound(c, now)
    ensures Sound(Reset(c, realm), now)
  {
    ResetTabled(c, realm);
    assert Reset(c, realm).flights == c.flights && Reset(c, realm).records == c.records;
  }

  lemma SettlePointing(c: Controller, now: nat, f: nat, answer: Answer)
    requires Pointing(c) && f < |c.flights| && c.flights[f].phase.Pending?
    ensures Pointing(Settle(c, now, f, answer))
  {
  }

  lemma SettleSpaced(c: Controller, now: nat, f: nat, answer: Answer)
    requires Spaced(c, now) && f < |c.flights| && c.flights[f].phase.Pending?
    ensures Spaced(Settle(c, now, f, answer), now)
  {
    var c' := Settle(c, now, f, answer);
    assert forall g | 0 <= g < |c.flights| && g != f :: c'.flights[g] == c.flights[g];
    forall g, h | 0 <= g < h < |c'.flights| && c'.flights[g].record == c'.flights[h].record
      ensures !Open(c'.flights[g])
      ensures Failed(c'.flights[g]) ==> c'.flights[g].phase.at + BACKOFF_MS <= c'.flights[h].openedAt
    {
      assert !Open(c.flights[g]) && g != f;
    }
    forall g | 0 <= g < |c'.flights| && Failed(c'.flights[g])
      ensures c'.flights[g].phase.at + BACKOFF_MS <= now
              || c'.flights[g].phase.at + BACKOFF_MS <= c'.records[c'.flights[g].record].blockedUntil
    {
      if g != f && c.flights[g].record == c.flights[f].record {
        assert g < f ==> c.flights[g].phase.at + BACKOFF_MS <= c.flights[f].openedAt;
      }
    }
  }

  lemma SettleSound(c: Controller, now: nat, f: nat, answer: Answer)
    requires Sound(c, now) && f < |c.flights| && c.flights[f].phase.Pending?
    ensures Sound(Settle(c, now, f, answer), now)
  {
    TabledFrame(c, Settle(c, now, f, answer));
    SettlePointing(c, now, f, answer);
    SettleSpaced(c, now, f, answer);
  }

  lemma ClearSpaced(c: Controller, now: nat, f: nat)
    requires Spaced(c, now) && f < |c.flights| && c.flights[f].phase.Settled?
    ensures Spaced(Clear(c, f), now)
  {
    var c' := Clear(c, f);
    assert forall g | 0 <= g < |c.flights| :: Failed(c'.flights[g]) == Failed(c.flights[g]);
    assert forall k | 0 <= k < |c.records| :: c'.records[k].blockedUntil == c.records[k].blockedUntil;
  }

  lemma ClearPointing(c: Controller, f: nat)
    requires Pointing(c) && f < |c.flights| && c.flights[f].phase.Settled?
    ensures Pointing(Clear(c, f))
  {
  }

  lemma ClearSound(c: Controller, now: nat, f: nat)
    requires Sound(c, now) && f < |c.flights| && c.flights[f].phase.Settled?
    ensures Sound(Clear(c, f), now)
  {
    TabledFrame(c, Clear(c, f));
    ClearPointing(c, f);
    ClearSpaced(c, now, f);
  }

  // ---------------------------------------------------------------- what never changes

  /** Records keep their realm and epoch, promises their origin, and a promise that is over its result. */
  ghost predicate Extends(c: Controller, c': Controller) {
    && Indexed(c) && Indexed(c')
    && |c.records| <= |c'.records| && |c.flights| <= |c'.flights|
    && (forall k | 0 <= k < |c.records| ::
          c'.records[k].realm == c.records[k].realm && c'.records[k].epoch == c.records[k].epoch)
    && (forall f | 0 <= f < |c.flights| ::
          && c'.flights[f].record == c.flights[f].record
          && c'.flights[f].starter == c.flights[f].starter
          && c'.flights[f].presented == c.flights[f].presented
          && c'.flights[f].openedAt == c.flights[f].openedAt
          && (!Open(c.flights[f]) ==> c'.flights[f].phase == c.flights[f].phase))
  }

  lemma WithRecordFacts(c: Controller, realm: string)
    requires Tabled(c) && Pointing(c)
    ensures
      var c1 := WithRecord(c, realm);
      && Extends(c, c1) && c1.flights == c.flights
      && realm in c1.table && c1.table[realm] < |c1.records|
      && var record := c1.records[c1.table[realm]];
         && record.realm == realm
         && (realm in c.table ==> c1 == c)
         && (realm !in c.table ==> record.inFlight.None? && record.blockedUntil == 0)
         && (record.inFlight.Some? ==>
               && record.inFlight.value < |c.flights|
               && c.flights[record.inFlight.value].record == c1.table[realm]
               && Open(c.flights[record.inFlight.value]))
  {
  }

  lemma LaunchResult(c: Controller, now: nat, k: nat, starter: Starter, presented: string)
    requires Indexed(c) && k < |c.records|
    ensures
      var c' := Launch(c, now, k, starter, presented);
      && Extends(c, c')
      && c'.flights == c.flights + [Flight(k, starter, presented, now, Pending)]
      && Open(c'.flights[|c.flights|]) && RealmOf(c', |c.flights|) == c.records[k].realm
      && c'.table == c.table && c'.resets == c.resets
  {
  }

  lemma LaunchExtends(c: Controller, c1: Controller, now: nat, k: nat, starter: Starter, presented: string)
    requires Extends(c, c1) && k < |c1.records|
    ensures Extends(c, Launch(c1, now, k, starter, presented))
  {
    LaunchResult(c1, now, k, starter, presented);
  }

  /** run: an awaited flight is open and of the realm asked for; only an unexpired back-off refuses. */
  lemma RunResult(c: Controller, now: nat, realm: string, starter: Starter, presented: string)
    requires Tabled(c) && Pointing(c)
    ensures
      var (c', flight) := Run(c, now, realm, starter, presented);
      && Extends(c, c')
      && (flight.Some? ==>
            && flight.value < |c'.flights|
            && c'.flights[flight.value].record < |c'.records|
            && Open(c'.flights[flight.value])
            && RealmOf(c', flight.value) == realm
            && realm in c'.table && c'.table[realm] == c'.flights[flight.value].record)
      && (flight.None? ==> realm in c.table && now < c.records[c.table[realm]].blockedUntil)
      && c'.resets == c.resets && realm in c'.table
      && c'.flights == c.flights + if flight == Some(|c.flights|)
                                   then [Flight(c'.table[realm], starter, presented, now, Pending)] else []
  {
    WithRecordFacts(c, realm);
    var c1 := WithRecord(c, realm);
    var k := c1.table[realm];
    if c1.records[k].inFlight.None? && c1.records[k].blockedUntil <= now {
      LaunchResult(c1, now, k, starter, presented);
      LaunchExtends(c, c1, now, k, starter, presented);
    }
  }

  lemma ResetExtends(c: Controller, realm: string)
    requires Indexed(c)
    ensures Extends(c, Reset(c, realm)) && Reset(c, realm).flights == c.flights
  {
  }

  lemma SettleExtends(c: Controller, now: nat, f: nat, answer: Answer)
    requires Indexed(c) && f < |c.flights| && c.flights[f].phase.Pending?
    ensures Extends(c, Settle(c, now, f, answer))
  {
  }

  lemma ClearExtends(c: Controller, f: nat)
    requires Indexed(c) && f < |c.flights| && c.flights[f].phase.Settled?
    ensures Extends(c, Clear(c, f))
  {
  }

  // ---------------------------------------------------------------- what the invariants say

  /** At any time, at most one refresh of a realm is in flight between two resets of it. */
  lemma SingleFlight(c: Controller, now: nat, f: nat, g: nat)
    requires Sound(c, now)
    requires f < |c.flights| && g < |c.flights| && Open(c.flights[f]) && Open(c.flights[g])
    requires RealmOf(c, f) == RealmOf(c, g)
    requires c.records[c.flights[f].record].epoch == c.records[c.flights[g].record].epoch
    ensures f == g
  {
  }
}
