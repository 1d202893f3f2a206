/**
 The tables of the realm data graph and their foreign keys: as the entities declare them,
 and as the SQL migrations leave them.
 */
module RealmSchema {
  import opened Common
  import opened Referential

  datatype Table =
    | Realms
    | Clients | Users | Roles | UserRole
    | IdentityProviders | IdentityProviderLinks | BrokerAuthSessions
    | AuthSessions | UserSessions | AccessTokens | RefreshTokens | MagicLinks
    | Credentials | UserRequiredActions
    | UserFederationProviders | UserFederationMappings
    | ClientScopes | ClientScopeAttributes | ClientScopeMappings | ClientScopeProtocolMappers
    | RedirectUris | PostLogoutRedirectUris
    | CompassFlows | CompassFlowSteps
    | JwtKeys | RealmSettings | SecurityEvents
    | Webhooks | WebhookSubscribers

  datatype Column =
    | RealmId | ClientId | UserId | RoleId | IdentityProviderId | AuthSessionId
    | ProviderId | ClientScopeId | FlowId | WebhookId | CompassFlowId

  /** The migrations differ from the entities in four foreign keys. */
  datatype Version = Entities | Migrated

  /** belongs_to of a NOT NULL column, ON DELETE CASCADE. */
  function Owned(parent: Table): Option<Decl<Table>> {
    Some(Decl(parent, false, Cascade))
  }

  /** belongs_to of a nullable column. */
  function Optional(parent: Table, onDelete: Action): Option<Decl<Table>> {
    Some(Decl(parent, true, onDelete))
  }

  /** The tables with a realm_id column. */
  predicate HasRealmColumn(t: Table) {
    match t
    case Clients | Users | Roles | IdentityProviders | BrokerAuthSessions | AuthSessions | UserSessions | AccessTokens
       | MagicLinks | UserFederationProviders | ClientScopes | CompassFlows | JwtKeys | RealmSettings | SecurityEvents
       | Webhooks => true
    case _ => false
  }

  function Declared(v: Version, t: Table, c: Column): Option<Decl<Table>> {
    match c
    case RealmId => if HasRealmColumn(t) then Owned(Realms) else None
    case ClientId => (
      match t
      case AuthSessions | BrokerAuthSessions | ClientScopeMappings
         | PostLogoutRedirectUris | RedirectUris => Owned(Clients)
      case Users | Roles => Optional(Clients, Cascade)
      case _ => None)
    case UserId => (
      match t
      case AccessTokens | Credentials | IdentityProviderLinks | MagicLinks | UserFederationMappings
         | UserRequiredActions | UserRole | UserSessions => Owned(Users)
      case AuthSessions => Optional(Users, if v.Entities? then Cascade else SetNull)
      case RefreshTokens => if v.Entities? then Some(Decl(Users, false, NoAction)) else Owned(Users)
      case CompassFlows => if v.Entities? then None else Optional(Users, SetNull)
      case _ => None)
    case RoleId => if t.UserRole? then Owned(Roles) else None
    case IdentityProviderId =>
      if t.IdentityProviderLinks? || t.BrokerAuthSessions? then Owned(IdentityProviders) else None
    case AuthSessionId => if t.BrokerAuthSessions? then Optional(AuthSessions, SetNull) else None
    case ProviderId => if t.UserFederationMappings? then Owned(UserFederationProviders) else None
    case ClientScopeId =>
      if t.ClientScopeAttributes? || t.ClientScopeMappings? || t.ClientScopeProtocolMappers?
      then Owned(ClientScopes) else None
    case FlowId => if t.CompassFlowSteps? then Owned(CompassFlows) else None
    case CompassFlowId => if t == AuthSessions && v.Migrated? then Optional(CompassFlows, SetNull) else None
    case WebhookId => if t.WebhookSubscribers? then Owned(Webhooks) else None
  }

  /** users.client_id is the one foreign key that is UNIQUE. */
  predicate DeclaredUnique(t: Table, c: Column) {
    t == Users && c == ClientId
  }

  /** The has_many and has_one relations the parents declare on their own side. */
  predicate HasMany(p: Table, t: Table) {
    match p
    case Realms => (
      match t
      case AccessTokens | AuthSessions | BrokerAuthSessions | ClientScopes | Clients | CompassFlows
         | IdentityProviders | JwtKeys | MagicLinks | RealmSettings | Roles | SecurityEvents
         | UserFederationProviders | UserSessions | Users | Webhooks => true
      case _ => false)
    case Clients => (
      match t
      case AuthSessions | BrokerAuthSessions | ClientScopeMappings | PostLogoutRedirectUris | RedirectUris
         | Roles | Users => true
      case _ => false)
    case Users => (
      match t
      case AccessTokens | AuthSessions | Credentials | IdentityProviderLinks | MagicLinks | RefreshTokens
         | UserFederationMappings | UserRequiredActions | UserRole | UserSessions => true
      case _ => false)
    case Roles => t.UserRole?
    case AuthSessions => t.BrokerAuthSessions?
    case IdentityProviders => t.BrokerAuthSessions? || t.IdentityProviderLinks?
    case UserFederationProviders => t.UserFederationMappings?
    case ClientScopes => t.ClientScopeAttributes? || t.ClientScopeMappings? || t.ClientScopeProtocolMappers?
    case CompassFlows => t.CompassFlowSteps?
    case Webhooks => t.WebhookSubscribers?
    case _ => false
  }

  /** The one parent the columns of each name refer to. */
  function Parent(c: Column): Table {
    match c
    case RealmId => Realms
    case ClientId => Clients
    case UserId => Users
    case RoleId => Roles
    case IdentityProviderId => IdentityProviders
    case AuthSessionId => AuthSessions
    case ProviderId => UserFederationProviders
    case ClientScopeId => ClientScopes
    case FlowId | CompassFlowId => CompassFlows
    case WebhookId => Webhooks
  }

  lemma UserRelationsAgree(t: Table)
    ensures HasMany(Users, t) <==> Declared(Entities, t, UserId).Some?
    ensures Declared(Entities, t, UserId).Some? ==> Declared(Entities, t, UserId).value.parent == Users
  {
  }

  lemma RealmRelationsAgree(t: Table)
    ensures HasMany(Realms, t) <==> Declared(Entities, t, RealmId).Some?
  {
  }

  lemma ScopeRelationsAgree(t: Table)
    ensures HasMany(ClientScopes, t) <==> Declared(Entities, t, ClientScopeId).Some?
    ensures Declared(Entities, t, ClientScopeId).Some? ==>
              Declared(Entities, t, ClientScopeId).value.parent == ClientScopes
  {
  }

  lemma ClientRelationsAgree(t: Table)
    ensures HasMany(Clients, t) <==> Declared(Entities, t, ClientId).Some?
    ensures Declared(Entities, t, ClientId).Some? ==> Declared(Entities, t, ClientId).value.parent == Clients
  {
  }

  /** The parents with one table of children. */
  lemma LeafRelationsAgree(t: Table, c: Column)
    requires c.RoleId? || c.AuthSessionId? || c.ProviderId? || c.FlowId? || c.WebhookId?
    ensures HasMany(Parent(c), t) <==> Declared(Entities, t, c).Some?
    ensures Declared(Entities, t, c).Some? ==> Declared(Entities, t, c).value.parent == Parent(c)
  {
  }

  lemma ProviderRelationsAgree(t: Table)
    ensures HasMany(IdentityProviders, t) <==> Declared(Entities, t, IdentityProviderId).Some?
    ensures Declared(Entities, t, IdentityProviderId).Some? ==>
              Declared(Entities, t, IdentityProviderId).value.parent == IdentityProviders
  {
  }

  /** The two sides of every relation agree: a parent lists exactly the tables that have a column referring to it. */
  lemma RelationsAgree(t: Table, c: Column)
    requires c != CompassFlowId
    ensures HasMany(Parent(c), t) <==> Declared(Entities, t, c).Some?
    ensures Declared(Entities, t, c).Some? ==> Declared(Entities, t, c).value.parent == Parent(c)
  {
    match c
    case RealmId => RealmRelationsAgree(t);
    case ClientId => ClientRelationsAgree(t);
    case UserId => UserRelationsAgree(t);
    case IdentityProviderId => ProviderRelationsAgree(t);
    case ClientScopeId => ScopeRelationsAgree(t);
    case _ => LeafRelationsAgree(t, c);
  }

  /** Every key refers to the parent its column is named for. */
  lemma ParentOf(v: Version, t: Table, c: Column)
    requires Declared(v, t, c).Some?
    ensures Declared(v, t, c).value.parent == Parent(c)
  {
    match c
    case ClientId =>
    case UserId =>
    case _ =>
  }

  /** As the entities declare them, one key is NO ACTION, one is SET NULL, and all others are CASCADE. */
  lemma EntityActions(t: Table, c: Column)
    requires Declared(Entities, t, c).Some?
    ensures Declared(Entities, t, c).value.onDelete ==
            if t == RefreshTokens && c == UserId then NoAction
            else if t == BrokerAuthSessions && c == AuthSessionId then SetNull
            else Cascade
  {
    match c
    case ClientId =>
    case UserId =>
    case _ =>
  }

  /** Four of them may be null. */
  lemma EntityNullables(t: Table, c: Column)
    requires Declared(Entities, t, c).Some?
    ensures Declared(Entities, t, c).value.nullable <==>
            || ((t == Users || t == Roles) && c == ClientId)
            || (t == AuthSessions && c == UserId)
            || (t == BrokerAuthSessions && c == AuthSessionId)
  {
    match c
    case ClientId =>
    case UserId =>
    case _ =>
  }

  lemma UserKeysDifferIff(t: Table)
    ensures Declared(Entities, t, UserId) != Declared(Migrated, t, UserId) <==>
            t == RefreshTokens || t == AuthSessions || t == CompassFlows
    ensures t == RefreshTokens ==> Declared(Migrated, t, UserId) == Some(Decl(Users, false, Cascade))
    ensures t == AuthSessions || t == CompassFlows ==>
              Declared(Migrated, t, UserId) == Some(Decl(Users, true, SetNull))
  {
  }

  /** The migrations differ in four keys: one more is CASCADE, three are SET NULL. */
  lemma VersionsDifferIff(t: Table, c: Column)
    ensures Declared(Entities, t, c) != Declared(Migrated, t, c) <==>
            || ((t == RefreshTokens || t == AuthSessions || t == CompassFlows) && c == UserId)
            || (t == AuthSessions && c == CompassFlowId)
    ensures Declared(Entities, t, c) != Declared(Migrated, t, c) ==>
              Declared(Migrated, t, c) ==
              Some(Decl(Parent(c), t != RefreshTokens, if t == RefreshTokens then Cascade else SetNull))
  {
    if c == UserId {
      UserKeysDifferIff(t);
    }
  }

  function Graph(v: Version): Schema<Table, Column> {
    Schema((t, c) => Declared(v, t, c), DeclaredUnique)
  }

  /** An order of the tables in which every CASCADE edge leads upwards; tables without CASCADE children come last. */
  function Rank(t: Table): nat {
    match t
    case Realms => 0
    case Clients | IdentityProviders | UserFederationProviders | ClientScopes | CompassFlows | Webhooks => 1
    case Users | Roles => 2
    case _ => 3
  }

  lemma GraphIsWellFormed(v: Version)
    ensures WellFormed(Graph(v))
  {
  }

  lemma ClientEdgesRise(v: Version, t: Table)
    requires Declared(v, t, ClientId).Some?
    ensures Declared(v, t, ClientId).value.parent == Clients && Rank(t) >= 2
  {
  }

  lemma UserEdgesRise(v: Version, t: Table)
    requires Declared(v, t, UserId).Some? && Declared(v, t, UserId).value.onDelete == Cascade
    ensures Declared(v, t, UserId).value.parent == Users && Rank(t) == 3
  {
  }

  lemma EdgesRise(v: Version, t: Table, c: Column)
    requires Declared(v, t, c).Some? && Declared(v, t, c).value.onDelete == Cascade
    ensures Rank(Declared(v, t, c).value.parent) < Rank(t)
  {
    match c
    case RealmId =>
    case ClientId => ClientEdgesRise(v, t);
    case UserId => UserEdgesRise(v, t);
    case _ =>
  }

  lemma GraphIsRanked(v: Version)
    ensures Ranked(Graph(v), Rank)
    ensures forall t :: Rank(t) < 4
  {
    forall t, c | Graph(v).decl(t, c).Some? && Graph(v).decl(t, c).value.onDelete == Cascade
      ensures Rank(Graph(v).decl(t, c).value.parent) < Rank(t)
    {
      EdgesRise(v, t, c);
    }
  }

  // ---------------------------------------------------------------- ownership

  /** The non-null foreign key through which a table's rows belong to a realm. */
  function Home(t: Table): (c: Column)
    ensures forall v | t != Realms ::
              && Declared(v, t, c).Some?
              && !Declared(v, t, c).value.nullable
              && Rank(Declared(v, t, c).value.parent) < Rank(t)
              && (Declared(v, t, c).value.onDelete == Cascade || (t == RefreshTokens && c == UserId))
  {
    if HasRealmColumn(t) then RealmId
    else
      match t
      case IdentityProviderLinks | RefreshTokens | Credentials | UserFederationMappings
         | UserRequiredActions | UserRole => UserId
      case ClientScopeAttributes | ClientScopeProtocolMappers => ClientScopeId
      case ClientScopeMappings | RedirectUris | PostLogoutRedirectUris => ClientId
      case CompassFlowSteps => FlowId
      case WebhookSubscribers => WebhookId
      case _ => RealmId
  }

  type Database = Db<Table, Column>
  type Reference = Ref<Table>

  /** The realm a row belongs to: by its own realm_id, or else its home parent's realm. */
  function Owner(v: Version, db: Database, r: Reference): Option<Reference>
    decreases Rank(r.table)
  {
    if r !in db then None
    else if r.table == Realms then Some(r)
    else
      var p := Target(Graph(v), r.table, db[r], Home(r.table));
      if p.None? then None else Owner(v, db, p.value)
  }

  /** Every row's parents belong to the row's own realm. */
  ghost predicate RealmConsistent(v: Version, db: Database) {
    forall r, c {:trigger Target(Graph(v), r.table, db[r], c)} |
      r in db && Target(Graph(v), r.table, db[r], c).Some? ::
        Owner(v, db, Target(Graph(v), r.table, db[r], c).value) == Owner(v, db, r)
  }
}
