# FerrisKey verification model

A Dafny 4.11 model of five parts of FerrisKey, with proofs. `dafny verify dfyconfig.toml` checks the whole project.

1. **The realm data graph** (`Referential`, `RealmSchema`, `RealmDeletion`, `RealmIsolation`, `RealmService`). The entities of
   `api/src/entity` declare foreign keys with ON DELETE actions. `Referential` gives a DELETE statement the meaning of
   section 11.8 of ISO/IEC 9075-2 over an arbitrary schema: the targets go, pending CASCADE and SET NULL actions fire one at
   a time in any order, and NO ACTION keys are looked at when nothing is pending. It proves that the order does not matter,
   that every run ends, and that one sweep of the tables in rank order computes what is removed. The other modules apply
   this to FerrisKey's tables and prove who blocks whom, the footprints of client and user deletes, exactly when realms
   are isolated from each other, and what `assign_role` and the two statements of `delete_realm` do.
2. **The session-refresh protocol of the web client** (`RealmUrl`, `RefreshController`, `RefreshProtocol`, `RefreshSafety`,
   `RefreshRuns`, `RefreshLogins`, `RefreshEffects`, `BrowserSession`). The fetcher, the token store, the refresh controller
   with its back-off and reset, and the `useAuth` hook run as a state machine with one event per stretch between two awaits;
   events of any number of calls interleave freely, and server answers, logins, logouts and time are arbitrary.
   `BrowserSession` has the same code in its own imperative form, proved to do what the machine says.
3. **Deep-object query parameters** (`DeepObject`, `DeepObjectLaws`, `DeepObjectCodec`, `DeepObjectLookup`).
   `parse_deep_object` with its loops, when it panics, what it prints, a decoder, and exactly when two values print alike.
4. **Bearer-token payloads** (`Base64Url`, `Unicode`, `Jws`). Strict base64url, strict UTF-8, the server's two extractors,
   and the web client's `decodeJwt`.
5. **Refresh-token rotation** (`TokenRotation`, `TokenService`). Concurrent refresh requests against the repository at
   PostgreSQL's default isolation level: `rotate` is an UPDATE that holds its row and a later commit that shows the successor, and
   `revoke_family` acts on the rows committed when it starts, waiting for those that are held. `TokenService` has the
   repository and the request in their own imperative form, proved to do what the machine says.

## Where the code and its own words differ

The model follows the code. Each of these is a lemma.

- The client API documentation says deleting a realm, client or user removes all associated data. Under the entities' NO ACTION
  key on `refresh_tokens.user_id` the statement is refused exactly when a user to be removed holds a refresh token
  (`RealmDeleteBlockedIff`, `ClientDeleteBlockedIff`, `UserDeleteBlockedIff`, with an instance in `RealmDeleteCanBeRefused`).
  The migrations make that key CASCADE, and then no key among these tables refuses a delete (the RESTRICT key
  `fk_portal_themes_layout` of a table outside the model still can). `Version` covers both: the entity files, and the same
  tables as the migrations leave them, which differ in four keys (`refresh_tokens.user_id`, `auth_sessions.user_id`,
  `compass_flows.user_id`, `auth_sessions.compass_flow_id`).
- README.md promises strong isolation of realms. Deleting a realm leaves all other realms alone exactly when none of their
  rows refers to one of its rows (`RealmIsolationIff`), and histories keep it so exactly when every accepted write keeps to
  one realm (`HistoriesKeepRealmsIff`). `assign_role` does not: it joins any user to any role
  (`core/src/domain/user/services.rs:420-442`), and then deleting the role's realm removes a row of the user's realm
  (`AssignRole`, `RoleOfAnotherRealm`, with an instance in `RealmDeleteCanReachAnotherRealm`).
- `delete_realm` is two statements without a transaction. When both succeed they do what one DELETE of both rows does
  (`DeleteRealmIsOneDelete`); a refusal of the second leaves the realm gone and its client in the master realm
  (`DeleteRealmRemoves`).
- The fetcher's comment says only one refresh is triggered at a time. That holds between two resets of a realm
  (`SingleFlight`, `OpenFlightsBounded`); a login during a refresh lets the next 401 start a second one
  (`ResetAllowsSecondFlight`, reached from a fresh page in `SecondFlightReachable`). `SecondFlightIff` says exactly when a 401
  beside an open refresh starts another.
- The controller is shared with the hook, whose refresh fulfils with nothing. A call that joins it throws and empties the store
  the hook has just filled (`ReplayIffStartedByCall`, `JoiningTheHookSignsOut`).
- A logout empties the store until the next login exactly when no call is still waiting for tokens and no hook request is
  out (`LogoutIsFinalIffQuiet`, with a run from a fresh page in `LogoutUndone`). This leaves aside a refresh that the hook
  starts after the logout with a refresh token it has kept: like a login, that can bring tokens at any time.
- The tokens of a login survive the calls still under way exactly when none of them waits for a refresh that can end
  otherwise than BLOCKED, none replays, and no hook request is out (`LoginSurvivesIff`). `LoginWiped` is a run from a fresh
  page in which an old refresh fails and wipes a newer login.
- The comment beside the guard says every endpoint lives under `/realms/<name>/`. The realm resource itself does not match
  (`RealmResourceHasNoRealm`).
- `decodeJwt` reads the payload as one character per byte, so it agrees with the server exactly on ASCII payloads
  (`BrowserAgreesIffAscii`, with an instance in `BrowserMisreads`). It also takes tokens the server rejects: with stray bits
  at the end, with whitespace, without a signature (`AtobIsLenient`, `AtobSkipsWhitespace`, `BrowserReadsUnsigned`).
- `parse_deep_object` escapes nothing in keys. A printed name tells the path up to where `][` stood in it, and no more
  (`SameNameIff`, `PrintSameIff`, for all values), so names are unambiguous exactly among paths without `][` in a component
  (`CollidesIff`, with an instance in `BracketedKeysCollide`).
- A replayed refresh token is meant to end its family. The revocation does not see a successor that is committed while it
  runs (`RevocationCanMiss` is a whole run). When it starts, the family is sure to be dead after it exactly when it is dead
  already (`RevocationIsSureIff`). Schedule by schedule, if nothing else revokes the family's tokens meanwhile, it dies
  exactly when no rotation of it commits before the revocation ends (`LoneRevocationKillsIff`): an open rotation that
  commits escapes (`OpenRotationSurvives`), one that rolls back does not (`RolledBackRotationDies`).

## Model

| member | source | states |
|---|---|---|
| Referential.DoomedIsLeast | api/src/entity/users.rs:29-50 | the rows a delete removes are the least set that holds the targets and is closed under CASCADE keys |
| Referential.OrderIndependence | api/src/entity/broker_auth_sessions.rs:30-61 | whatever order CASCADE and SET NULL actions fire in, a run that has come to rest ends in the one outcome `Delete` gives, refusal included |
| Referential.RunsComeToRest | api/src/entity/broker_auth_sessions.rs:30-61 | every run of firings can be continued to one with nothing pending |
| Referential.FiringShrinks | api/src/entity/broker_auth_sessions.rs:30-61 | every firing removes a row or a non-null key value, so no run is infinite |
| Referential.DeleteKeepsGood | api/src/entity/auth_sessions.rs:35-58 | an unrefused delete leaves no dangling key, no null in a non-nullable key, and unique columns unique |
| Referential.FitsIffGood | api/src/entity/users.rs:11-12 | the local checks of an insert or update accept a row exactly when the whole database stays good |
| Referential.HistoriesStayGood | api/src/entity/auth_sessions.rs:35-58 | over every history of inserts, updates and deletes all constraints hold |
| Referential.RemoveTakesEffect | api/src/entity/users.rs:29-50 | a DELETE that no NO ACTION key forbids leaves none of its targets and takes just the least closed set; a forbidden one changes nothing |
| Referential.PutTakesEffect | api/src/entity/users.rs:11-12 | an insert or update is carried out, on its own row only, exactly when the whole database stays good |
| Referential.SweepIsDoomed | api/src/entity/clients.rs:35-42 | one sweep of the tables in rank order removes exactly the least closed set |
| Referential.DoomedIffChain | api/src/entity/user_role.rs:18-33 | a row is removed exactly when a CASCADE chain no longer than the ranks allow leads to it from a target |
| RealmSchema.RelationsAgree | api/src/entity/realms.rs:16-50 | the has_many lists of the parents and the belongs_to keys of the children name the same relations |
| RealmSchema.EntityActions | api/src/entity/refresh_tokens.rs:20-27 | as the entities declare them, refresh_tokens.user_id is NO ACTION, broker_auth_sessions.auth_session_id SET NULL, and every other key CASCADE |
| RealmSchema.EntityNullables | api/src/entity/users.rs:11-36 | of the entities' keys just users.client_id, roles.client_id, auth_sessions.user_id and broker_auth_sessions.auth_session_id may be null |
| RealmSchema.VersionsDifferIff | core/migrations/20260310120000_add_cascade_delete_refresh_tokens.up.sql:5-7 | the migrations differ from the entities in four keys, one CASCADE and three SET NULL |
| RealmSchema.GraphIsWellFormed | api/src/entity/broker_auth_sessions.rs:23-37 | SET NULL is declared on nullable columns only |
| RealmSchema.GraphIsRanked | api/src/entity/auth_sessions.rs:31-58 | CASCADE keys are acyclic, with ranks below four |
| RealmSchema.Home | api/src/entity/user_role.rs:16-34 | every table but realms has a non-null key towards its realm, which is CASCADE except for refresh tokens |
| RealmDeletion.ChainsHaveAtMostThreeEdges | api/src/entity/user_sessions.rs:18-36 | every removed row has a CASCADE chain of at most three keys to a target, and the four-round sweep finds exactly the removed rows |
| RealmDeletion.HistoriesKeepTheGraphGood | api/src/entity/users.rs:11-50 | from the empty database all constraints of the graph hold for ever |
| RealmDeletion.OneServiceAccount | api/src/entity/users.rs:11-12 | two users whose client_id is the same client are one |
| RealmDeletion.BlockedIffRefreshToken | api/src/entity/refresh_tokens.rs:20-27 | a delete is refused exactly when a refresh token that is no target belongs to a user that would be removed; after the migrations never |
| RealmDeletion.RefreshTokensAreNeverCascaded | api/src/entity/refresh_tokens.rs:18-28 | under the entities' keys a refresh token is removed only as a target |
| RealmDeletion.UnderClientIff | api/src/entity/clients.rs:25-49 | a row goes with a client by a key of its own exactly when its client_id is the client, whatever its table |
| RealmDeletion.UnderUserIff | api/src/entity/users.rs:38-61 | a row goes with a user by a key of its own exactly when its user_id is the user and its table is not one that outlives users |
| RealmDeletion.ClientFootprint | api/src/entity/clients.rs:25-49 | read off the columns: a client delete removes exactly the client, the rows whose client_id is the client, the rows whose user_id is its service account but for the tables that outlive users, and the rows whose role_id is one of its roles |
| RealmDeletion.ClientDeleteRemovesAtMostOneUser | api/src/entity/users.rs:29-36 | at most one user goes with a client, and it is the client's service account |
| RealmDeletion.ClientDeleteBlockedIff | client/src/apis/client_api.rs:379 | a client delete is refused exactly when a user whose client_id is the client holds a refresh token |
| RealmDeletion.UserFootprint | api/src/entity/users.rs:24-61 | a user delete removes exactly the user and the rows whose user_id is the user, but for the tables that outlive users |
| RealmDeletion.UserDeleteBlockedIff | client/src/apis/user_api.rs:313 | a user delete is refused exactly when the user holds a refresh token |
| RealmDeletion.DoomedByOwnKey | api/src/entity/broker_auth_sessions.rs:38-61 | a row other than a target goes exactly when one of its own CASCADE keys reaches a removed row |
| RealmDeletion.BrokerSessionFate | api/src/entity/broker_auth_sessions.rs:30-61 | a broker session goes exactly when its realm, client or identity provider does, even if its auth session goes too; a surviving one loses its auth session exactly when that goes and keeps everything else |
| Referential.DeleteStaysWithinIff | api/src/entity/broker_auth_sessions.rs:30-61 | a delete of some rows of a region leaves all rows outside it as they were exactly when none of those refers to a row that goes |
| Referential.DeleteTakesRegionIff | api/src/entity/realms.rs:16-50 | a delete that takes a whole region takes just that and changes nothing else, exactly when no row outside refers into the region |
| RealmIsolation.DeleteStaysInRealmIff | README.md:39 | deleting any rows of one realm leaves every row of the others alone exactly when none of those refers to a row that goes |
| RealmIsolation.SurvivorsKeepOwner | api/src/entity/realms.rs:16-50 | a row that survives a delete stays in its realm |
| RealmIsolation.DeleteKeepsRealms | api/src/entity/realms.rs:16-50 | every unrefused delete keeps all parents of a row in the row's realm |
| RealmIsolation.PutKeepsRealmsIff | api/src/entity/realms.rs:16-50 | of the writes that move no existing row, exactly those of a row whose parents share its realm keep all rows so |
| RealmIsolation.HistoriesKeepRealmsIff | README.md:39 | realms stay apart after every statement of a history exactly when each accepted write keeps to one realm, whatever is deleted |
| RealmIsolation.RealmIsolationIff | api/src/entity/realms.rs:16-50 | an unrefused delete of a realm row removes exactly the rows the realm owns and changes nothing else, if and only if no other realm's row refers to one of them |
| RealmIsolation.RealmIsolation | api/src/entity/realms.rs:16-50 | where rows and their parents share a realm that is so, and both invariants survive |
| RealmIsolation.RealmDeleteBlockedIff | api/src/entity/refresh_tokens.rs:20-27 | the delete of a realm row no other realm's row refers into is refused exactly when the realm owns a refresh token |
| RealmIsolation.RealmDeleteCanBeRefused | api/src/entity/refresh_tokens.rs:20-27 | a three-row database on which the documented realm delete is refused |
| RealmService.AssignRole | core/src/domain/user/services.rs:420-442 | any role can be assigned to any user, the assignment belongs to the user's realm, and realms stay apart exactly when the role's realm is the same |
| RealmService.RoleOfAnotherRealm | core/src/domain/user/services.rs:436-442 | an unrefused delete of the role's realm then removes that row of the user's realm |
| RealmService.RealmDeleteCanReachAnotherRealm | core/src/infrastructure/user/repositories/user_role_repository.rs:24-37 | two realms, a user and a role on which that happens under both versions of the keys |
| RealmService.DeleteRealmRemoves | core/src/domain/realm/services.rs:525-572 | on every database: the operation does nothing exactly when a user to go with the realm holds a refresh token, fails halfway, with only the realm gone, exactly when only the client's service account holds one, and otherwise removes exactly what goes with the realm and the client's footprint |
| RealmService.MasterStays | core/src/domain/realm/services.rs:525-572 | whatever it is asked to delete, the master realm stays |
| RealmService.ClientOutlasts | core/src/domain/realm/services.rs:549-569 | the master realm's client never goes with the realm, so the second statement finds it |
| RealmService.DeleteRealmOwned | core/src/domain/realm/services.rs:525-572 | for a realm no other refers into, what goes with it is exactly what it owns |
| RealmService.DeleteRealmIsOneDelete | core/src/domain/realm/services.rs:565-569 | when both statements succeed they do what one DELETE of both rows would |
| RealmService.DeleteRealmSparesOthersIff | core/src/domain/realm/services.rs:525-572 | when it succeeds, rows of all realms but this one and the master realm stay as they were exactly when none of them refers to a row that goes |
| RealmService.DeleteRealmSparesOthers | core/src/domain/realm/services.rs:525-572 | however it ends, they stay so when no row of another realm refers into either |
| RealmUrl.ExtractRealmIsLeftmost | front/src/api/index.ts:22-25 | the result is the capture of the leftmost match, and null exactly when there is no match |
| RealmUrl.TokenPathRoundTrip | front/src/api/index.ts:37 | the refresh URL of any realm segment yields that realm and is a token endpoint |
| RealmUrl.RefreshUrlRoundTrip | front/src/api/index.ts:119-123 | the refresh URL built from an extracted realm yields the same realm and can itself start no refresh |
| RealmUrl.RealmResourceHasNoRealm | front/src/api/index.ts:115-116 | no realm is found in the path of a realm resource, contrary to the comment |
| RealmUrl.RequestPathRealm | front/src/api/index.ts:22-25 | whatever stands after /realms/X/ at the start of a path, its realm is X |
| RealmUrl.TokenEndpointIff | front/src/api/index.ts:31-37 | a token endpoint is any path that contains the token segment |
| RefreshController.RunSound | front/src/hooks/auth-refresh-controller.ts:32-59 | `run` keeps the controller's invariant |
| RefreshController.RunResult | front/src/hooks/auth-refresh-controller.ts:32-59 | `run` awaits an open flight of the realm asked for, starts at most one, and refuses only within a back-off |
| RefreshController.ResetSound | front/src/hooks/auth-refresh-controller.ts:60-62 | `reset` keeps the invariant although promises outlive their record |
| RefreshController.SettleSound | front/src/hooks/auth-refresh-controller.ts:43-51 | the then and catch clauses keep the invariant |
| RefreshController.ClearSound | front/src/hooks/auth-refresh-controller.ts:52-54 | the finally clause keeps the invariant |
| RefreshController.SingleFlight | front/src/api/index.ts:117-118 | two open refreshes of a realm between the same two resets are one |
| RefreshSafety.InvariantKept | front/src/api/index.ts:108-173 | every event of the protocol keeps the whole invariant |
| RefreshSafety.AtMostOneReplay | front/src/api/index.ts:108-133 | a call sends at most twice, the second time only after a 401 elsewhere than the token endpoint with token and realm at hand and a successful refresh of that realm, and with exactly the token that refresh returned |
| RefreshSafety.SharedRefreshSharedToken | front/src/api/index.ts:125-133 | calls that awaited the same refresh replay with the same access token |
| RefreshSafety.AtMostOneRefreshPerCall | front/src/api/index.ts:10-14 | a call starts at most one refresh, never from the token endpoint, and spends on it the token it read |
| RefreshSafety.StorePairing | front/src/api/index.ts:128-143 | the stored access and refresh tokens are both null or were issued together, however late a stale caller writes |
| RefreshSafety.FailurePath | front/src/api/index.ts:134-171 | when the refresh or the replay throws the call throws 401, and its last write empties the store unless the error is BLOCKED |
| RefreshSafety.CaughtWithoutReplay | front/src/api/index.ts:124-153 | a finished call that needed a refresh sent no replay exactly when its catch clause ran and its refresh brought no tokens |
| RefreshSafety.ReplayIffStartedByCall | front/src/hooks/use-auth.ts:194-230 | after an answer with tokens a waiting call replays exactly when a call, not the hook, started the refresh; otherwise it signs the user out |
| RefreshRuns.BurstSharesOneRefresh | front/src/api/index.ts:117-118 | while a flight is open and its realm not reset, no further refresh of the realm starts and every 401 of the realm awaits that flight |
| RefreshRuns.OpenFlightsBounded | front/src/hooks/auth-refresh-controller.ts:29-62 | a realm reset n times has at most n + 1 open refreshes |
| RefreshRuns.BackOffRespected | front/src/hooks/auth-refresh-controller.ts:39-51 | between two resets a failed refresh is not followed by another for 15 seconds |
| RefreshRuns.ResetAllowsSecondFlight | front/src/hooks/use-auth.ts:88-107 | a login during a refresh lets the next 401 open a second one |
| RefreshRuns.SecondFlightReachable | front/src/hooks/use-auth.ts:88-107 | from a fresh page two refreshes of one realm come to be open at once |
| RefreshRuns.SecondFlightIff | front/src/api/index.ts:117-127 | beside an open refresh of its realm a 401 that triggers starts another exactly when the realm was reset since and its present record, if any, has no refresh and no unexpired back-off |
| RefreshRuns.HookAnswerEmptiesStore | front/src/hooks/use-auth.ts:194-212 | the hook's successful answer is stored and then wiped by a call that awaited it |
| RefreshRuns.JoiningTheHookSignsOut | front/src/hooks/use-auth.ts:194-212 | from a fresh page such a state is reachable, for every path, realm and answer |
| RefreshRuns.LogoutIsFinalIffQuiet | front/src/hooks/use-auth.ts:109-133 | an empty store stays empty, until a login or a refresh the hook starts later, exactly when nobody is left who could fill it |
| RefreshRuns.LogoutUndone | front/src/hooks/use-auth.ts:109-133 | from a fresh page: a logout during a call's refresh is not final |
| RefreshLogins.LoginSurvivesIff | front/src/api/index.ts:124-153 | the stored tokens survive whatever is under way exactly when no call waits for a refresh that can end otherwise than BLOCKED, none replays, and no hook request is out |
| RefreshLogins.LoginWiped | front/src/api/index.ts:134-153 | from a fresh page: a refresh that fails after a login wipes the login's tokens |
| RefreshEffects.FirstSend | front/src/api/index.ts:108 | over every run: a call's own request carries the access token that was stored when the call was made |
| RefreshEffects.OnlyIssuedTokens | front/src/api/index.ts:108-133 | in every reachable state each request of a call carries no token or an issued access token, and each refresh of a call spends an issued refresh token |
| RefreshEffects.IssuedIsHistory | front/src/hooks/use-auth.ts:88-107 | the issued pairs are those there at first and those that logins and token answers brought since |
| RefreshEffects.RefreshSpendsStored | front/src/api/index.ts:110-127 | the refresh a call starts spends the refresh token in the store at that moment |
| RefreshEffects.WritesMatchStore | front/src/api/index.ts:128-151 | what a call records as written is what the store then holds, and no other event of a call changes the store |
| RefreshEffects.IdTokenLost | front/src/api/index.ts:128-132 | an id token leaves the store only when the store is emptied, or a login or a hook's answer replaces all three tokens |
| RefreshEffects.IdTokenGained | front/src/hooks/use-auth.ts:194-212 | a new id token is the one the login or the stored answer brought, or the one the hook had kept |
| RefreshEffects.SessionsStartAfresh | front/src/hooks/use-auth.ts:88-133 | a login fills the store and a logout empties it, and after either no 401 of the realm joins an older refresh |
| RefreshEffects.HookAnswerStartsAfresh | front/src/hooks/use-auth.ts:194-212 | nor after the hook has stored its own tokens |
| RefreshEffects.LastAnswerDecides | front/src/api/index.ts:155-173 | without a refresh to wait for, an ok status is returned and any other thrown |
| RefreshEffects.TriggeredCallsWait | front/src/api/index.ts:119-127 | a 401 that finds token and realm makes its call await the realm's current refresh, or be refused without one |
| RefreshEffects.NoCallIsStuck | front/src/api/index.ts:108-173 | in every reachable state every unfinished call, or the refresh it awaits, can go on |
| RefreshEffects.NothingToSpend | front/src/api/index.ts:110-119 | without a refresh token, or with an empty one, a 401 throws and changes nothing |
| RefreshEffects.FailedIff | front/src/hooks/auth-refresh-controller.ts:43-51 | a refresh counts as failed on an error, and on a JSON null just when the hook started it |
| RefreshEffects.CaughtError | front/src/api/index.ts:124-153 | what the catch clause sees of a refresh without tokens: its error, or a TypeError |
| RefreshEffects.RefusedOnlyAfterFailure | front/src/hooks/auth-refresh-controller.ts:36-51 | a call is refused only within 15 seconds of a failed refresh of its realm after which none has been answered since the last reset |
| RefreshEffects.BackOffEnds | front/src/hooks/auth-refresh-controller.ts:39-51 | 15 seconds on, every call that asks for a refresh gets one to wait for |
| BrowserSession.AuthStore.SetTokens | front/src/store/auth.store.ts:12-13 | all three tokens are replaced at once |
| BrowserSession.Controller.GetState | front/src/hooks/auth-refresh-controller.ts:8-23 | the realm's record, made on demand |
| BrowserSession.Controller.Run | front/src/hooks/auth-refresh-controller.ts:32-59 | joins, refuses or starts as the machine's `Run` |
| BrowserSession.Controller.Reset | front/src/hooks/auth-refresh-controller.ts:60-62 | drops the record as the machine's `Reset` |
| BrowserSession.Controller.Settle | front/src/hooks/auth-refresh-controller.ts:43-51 | records success or back-off as the machine's `Settle` |
| BrowserSession.Controller.Clear | front/src/hooks/auth-refresh-controller.ts:52-54 | frees the record as the machine's `Clear` |
| BrowserSession.Session.OnFirstAnswer | front/src/api/index.ts:119-127 | the guard and the start of a refresh refine the machine |
| BrowserSession.Session.Catch | front/src/api/index.ts:134-153 | the catch clause refines the machine |
| BrowserSession.Session.OnWake | front/src/api/index.ts:125-153 | storing, replaying or failing refines the machine |
| BrowserSession.Session.OnTokenAnswer | front/src/hooks/use-auth.ts:88-107 | an answered refresh settles; the hook's own stores its tokens first |
| BrowserSession.Session.Turn | front/src/api/index.ts:108-173 | whatever event comes next, the code does what the machine does and keeps the machine's invariant |
| DeepObject.ParseDeepObject | client/src/apis/mod.rs:64-93 | the pushing loops compute `Flatten`, panic included |
| DeepObjectLaws.DefinedIff | client/src/apis/mod.rs:65-92 | it returns exactly on an object all of whose arrays, however deep, hold only objects |
| DeepObjectLaws.LeafCorrespondence | client/src/apis/mod.rs:66-89 | the output lists exactly the scalar leaves in traversal order, each named prefix plus bracketed path |
| DeepObjectLaws.ReadPathRoundTrip | client/src/apis/mod.rs:71-85 | every printed path reads back as the path cut at `][`, so as itself exactly when no component contains that |
| DeepObjectLaws.SameNameIff | client/src/apis/mod.rs:71-85 | any two paths print the same name exactly when they are the same once cut at `][` |
| DeepObjectLaws.DecimalInjective | client/src/apis/mod.rs:75-77 | array indices print differently and without brackets |
| DeepObjectLaws.LeavesRebuild | client/src/apis/mod.rs:66-89 | inserting a value's leaves into an empty tree gives its erasure |
| DeepObjectCodec.RoundTripIff | client/src/apis/mod.rs:64-90 | the output, read by cutting names at `][`, gives the value's erasure exactly when no key on the way to a scalar contains `][` |
| DeepObjectCodec.PrintSameIff | client/src/apis/mod.rs:64-90 | any two printable values print the same parameters exactly when their leaves cut at `][` are the same |
| DeepObjectCodec.PrintAlikeIff | client/src/apis/mod.rs:64-90 | values without `][` in a key on the way to a scalar print the same parameters exactly when their erasures are equal |
| DeepObjectCodec.CollidesIff | client/src/apis/mod.rs:64-90 | whoever reads the names, for every scalar: what a value with that one scalar prints is printed by no such value of another erasure exactly when its own path is free of `][` |
| DeepObjectCodec.ScalarText | client/src/apis/mod.rs:82-85 | a value with one scalar prints one parameter, named by its path; its text is true, false, null, the number as printed, or the string itself |
| DeepObjectCodec.Determined | client/src/apis/mod.rs:64-90 | a tree without empty subtrees is determined by its leaves |
| DeepObjectCodec.NamesEqualIff | client/src/apis/mod.rs:66-89 | two parameters share a name exactly when their paths are the same once cut at `][` |
| DeepObjectCodec.NamesDistinct | client/src/apis/mod.rs:66-89 | so without `][` in a key on the way to a scalar no two do |
| DeepObjectCodec.BracketedKeysCollide | client/src/apis/mod.rs:82-85 | two objects with different erasures, one with the key `a][b`, print the same parameter |
| DeepObjectLookup.PrintedIffHeld | client/src/apis/mod.rs:64-93 | a parameter is printed exactly when it names a path of keys and indices at which looking up the value finds a scalar with that text |
| DeepObjectLookup.PrintedInOrder | client/src/apis/mod.rs:65-70 | parameters come in the order of the members |
| DeepObjectLookup.DecimalReads | client/src/apis/mod.rs:75-77 | an index is printed in base ten without leading zeros |
| DeepObjectLookup.Example | client/src/apis/mod.rs:64-93 | an object in an array in an object prints filter[a][0][b] |
| Base64Url.DecodeIffEncode | api/src/application/decoded_token.rs:66-68 | a string decodes to bytes exactly when it is their canonical encoding, for every length modulo 3 |
| Base64Url.SextetsAreBits | api/src/application/decoded_token.rs:66-68 | four sextets and their three bytes are the digits of one number |
| Base64Url.ShortGroups | api/src/application/decoded_token.rs:66-68 | one or two bytes left over are encoded as if zeros followed, without padding |
| Base64Url.AlphabetIs | api/src/application/decoded_token.rs:66-68 | capitals, small letters, digits, hyphen and underscore, in this order |
| Unicode.Utf8Iff | api/src/application/decoded_token.rs:70-71 | bytes decode to a text exactly when they are its encoding and it has only scalar values |
| Jws.SplitIff | api/src/application/decoded_token.rs:58-62 | the parts of a token are the one dotless sequence that joins to it |
| Jws.CompactInverts | api/src/application/auth.rs:98-110 | the compact form of any header, payload and signature splits into its three parts and the middle one decodes to the payload |
| Jws.PayloadIff | api/src/application/decoded_token.rs:57-68 | a token yields payload bytes exactly when it is two dots around their canonical encoding |
| Jws.AcceptedIff | api/src/application/decoded_token.rs:57-74 | a token is accepted exactly when the payload between its two dots is the base64url of the UTF-8 encoding of some text of scalar values that parses as claims |
| Jws.RejectedIff | api/src/application/decoded_token.rs:57-74 | a rejected token is invalid exactly when it has not just two dots, and does not parse otherwise |
| Jws.OptionalIff | api/src/application/decoded_token.rs:34-54 | the optional extractor yields claims exactly for a header that is "Bearer " and a token that is accepted with these claims |
| Jws.MandatoryIff | api/src/application/auth.rs:92-125 | the mandatory one does so too, and tells a missing token from an invalid one |
| Jws.ExtractorsAgree | api/src/application/auth.rs:92-125 | on every token string the mandatory and the optional extractor both reject or give the same claims and token |
| Jws.AtobAgrees | front/src/hooks/use-auth.ts:21-31 | whatever the server decodes the browser decodes to the same bytes |
| Jws.BrowserMisreads | front/src/hooks/use-auth.ts:21-31 | in every token whose payload is the letter é the server reads that letter and the browser the two characters é |
| Jws.BrowserAgreesIffAscii | front/src/hooks/use-auth.ts:21-31 | the browser reads the server's text exactly when the payload is non-empty ASCII |
| Jws.ServerTextIs | api/src/application/decoded_token.rs:57-74 | the text compared is the one the server parses claims from |
| Jws.BrowserReadsUnsigned | front/src/hooks/use-auth.ts:21-31 | the browser reads any dotless text, a dot and a payload, one character for each byte |
| Jws.AtobIsLenient | front/src/hooks/use-auth.ts:21-31 | it drops stray bits at the end of the payload |
| Jws.AtobSkipsWhitespace | front/src/hooks/use-auth.ts:21-31 | it skips ASCII whitespace anywhere in it |
| Jws.AtobRejects | front/src/hooks/use-auth.ts:21-31 | atob itself takes no hyphen and no underscore, so translating them is needed |
| TokenRotation.InvariantKept | core/src/domain/authentication/services.rs:1481-1606 | every step of every request keeps the rotation invariant, and no token comes back to life |
| TokenRotation.OneActivePerFamily | core/src/domain/authentication/services.rs:1539-1550 | a family has at most one exchangeable token |
| TokenRotation.ExchangedAtMostOnce | libs/ferriskey-security/src/jwt/entities.rs:217-218 | a token is exchanged at most once, and successors are never shared |
| TokenRotation.ReplayKillsIff | core/src/domain/authentication/services.rs:1497-1509 | once a replay is rejected, every token committed before the revocation began is revoked, and the family is dead in that state exactly when it is in all that follow, and exactly when no later token is active |
| TokenRotation.RevocationIsSureIff | core/src/domain/authentication/services.rs:1497-1509 | read off before the revocation starts: under every schedule the family is dead once the replay is rejected, exactly when it is dead already |
| TokenRotation.RevocationWaitsIffOpen | core/src/infrastructure/repositories/refresh_token_repository.rs:217-233 | while nothing has escaped it, a revocation has to wait exactly as long as a rotation of the family is open, and leaves the family dead if it ends now |
| TokenRotation.LoneRevocationKillsIff | core/src/domain/authentication/services.rs:1552-1564 | where nothing else revokes the family's tokens meanwhile, it is dead at the end exactly when no rotation of it commits between the start and the end of the revocation |
| TokenRotation.UndisturbedRevocationKills | core/src/domain/authentication/services.rs:1497-1509 | whatever else runs, a revocation during which no rotation of the family commits leaves it dead |
| TokenRotation.OpenRotationSurvives | core/src/infrastructure/repositories/refresh_token_repository.rs:217-233 | a rotation open during a revocation of its family that commits leaves a successor that stays active |
| TokenRotation.RolledBackRotationDies | core/src/infrastructure/repositories/refresh_token_repository.rs:217-233 | one that rolls back lets the revocation end with the family dead |
| TokenRotation.RevocationCanMiss | core/src/domain/authentication/services.rs:1497-1509 | a run in which a replay is rejected and its family lives on |
| TokenRotation.PresentedTwice | core/src/domain/authentication/services.rs:1552-1564 | of two requests with the same token one is rejected, the token granted to the other is dead too, and the family is dead exactly when nothing escaped the revocation |
| TokenRotation.RaceHasOneWinner | core/src/domain/authentication/services.rs:1539-1564 | over every run without failures: of two answered requests with one token at most one is granted, and whichever is not is rejected as a replay |
| TokenRotation.LateIsReplay | core/src/domain/authentication/services.rs:1552-1564 | along a run without failures a request whose token is not active before it is claimed is on its way to be rejected as a replay, and nothing else can become of it |
| TokenRotation.NoFaultNoFailure | core/src/domain/authentication/services.rs:1481-1606 | along a run without failure events no request becomes failed |
| TokenRotation.NobodyIsStuck | core/src/domain/authentication/services.rs:1481-1606 | in every reachable state an unanswered request can take a step that changes it, or a rotation of its family is open, which can |
| TokenRotation.AnythingCanFail | core/src/domain/authentication/services.rs:1481-1606 | an unanswered request can fail at any point, and a token can be logged out unless a rotation of its family is open |
| TokenRotation.LogoutKillsIff | core/src/domain/authentication/services.rs:2907-2918 | a logout revokes its token, and ends its family exactly when no other token of it is active |
| TokenService.Repository.Create | core/src/infrastructure/repositories/refresh_token_repository.rs:52-78 | a new active token in a family no other token has |
| TokenService.Repository.BeginRotate | core/src/infrastructure/repositories/refresh_token_repository.rs:155-190 | the conditional UPDATE takes hold of an active token; any other is a conflict and nothing changes |
| TokenService.Repository.CommitRotate | core/src/infrastructure/repositories/refresh_token_repository.rs:192-214 | the successor of the same family and the update appear together |
| TokenService.Repository.RollBackRotate | core/src/infrastructure/repositories/refresh_token_repository.rs:155-208 | a rotation that fails gives its row back and changes nothing |
| TokenService.Repository.RevokeFamily | core/src/infrastructure/repositories/refresh_token_repository.rs:217-233 | every token of the family that the UPDATE saw when it started becomes revoked and keeps its successor; every other row stays as it was |
| TokenService.Repository.RevokeByJti | core/src/infrastructure/repositories/refresh_token_repository.rs:119-135 | that token becomes revoked, every other row stays as it was |
| TokenService.Service.OnRead | core/src/domain/authentication/services.rs:1497-1509 | a token that is not active is taken for a replay |
| TokenService.Service.OnRotate | core/src/domain/authentication/services.rs:1539-1564 | a conflict is taken for a replay, otherwise the rotation is open |
| TokenService.Service.Turn | core/src/domain/authentication/services.rs:1481-1606 | whatever comes next, the code does what the machine does and keeps the machine's invariant |

## Left out

- The other tables the migrations create (organizations, e-mail templates, portal themes and layouts with their one RESTRICT
  key, maintenance lists, device sessions and so on): the graph has the tables of `api/src/entity` only.
- Unique constraints other than `users.client_id`, composite primary keys and column types: they guard no foreign key.
- `api/src/lib.rs` does not mount the entity module; the migrations' keys are what a running database has, which is why both versions are modelled.
- The bodies, headers and search parameters the fetcher builds (`front/src/api/index.ts:56-106`), the error data it attaches, and toasts.
- URL parsing: paths are taken as a URL object gives them, so `new URL` keeps the refresh path as it is written.
- Microtask order: the then or catch clause of a refresh runs in the same step as its answer, the finally clause and each
  waiting continuation in a step of its own, in any order. A hook refresh sends its request through the fetcher; here it is
  a request with an arbitrary answer.
- The hook's own catch, which always clears the state, is the logout event, allowed at any time.
- JSON, `urlencode`, the numbers' printed form, and the JSON deserializer of the claims: parameters or plain text.
- How `TypedHeader` finds the bearer credentials, signature and expiry checks, and the identity put into the request's extensions.
- The order in which one UPDATE reaches its rows: all rows of a revocation change in the step it ends with, and until then
  only rotations that are open hold rows. Deadlocks are among the failures a request may meet.
- The lookups by name, the policy check and the webhook of `delete_realm`, and the row of `security_events` that
  `assign_role` writes; a duplicate assignment is refused by a unique constraint the model does not have.
- HistoriesKeepRealmsIff: histories in which an update moves an existing row to another realm are outside its
  if-and-only-if, because no update of the server sets a realm or the key through which a row belongs to one.
- Token expiry, claim checks and lookups during a refresh are the event that makes a request fail.
- Device flow, password policy, permissions, e-mail and the generated clients.
