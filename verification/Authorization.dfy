/** Permission decisions: what scopes cover, how role policies combine, and what a policy allows. */
module Authorization {
  import opened Machine
  import Bson
  import CatalogLookup

  datatype DataDomain = Relational | Document

  datatype ResourceKind = ServerKind | RealmKind | DomainKind | DatabaseKind | ObjectKind

  datatype Action =
    | ConnectDatabase | ListDatabases | ListObjects | CreateDatabase | DropDatabase
    | ReadData | InsertData | UpdateData | DeleteData | CreateObject | DropObject
    | ListIndexes | CreateIndex | DropIndex
    | ViewUsers | CreateUser | DropUser | RotateCredentials | GrantRole | RevokeRole
    | ViewRoles | CreateRole | UpdateRole | DropRole
    | ReadDiagnostics | ManageServer

  function KindOf(action: Action): ResourceKind {
    match action
    case ConnectDatabase | ListObjects | CreateDatabase | DropDatabase => DatabaseKind
    case ListDatabases => DomainKind
    case ReadData | InsertData | UpdateData | DeleteData | CreateObject | DropObject => ObjectKind
    case ListIndexes | CreateIndex | DropIndex => ObjectKind
    case ViewUsers | CreateUser | DropUser | RotateCredentials | GrantRole | RevokeRole => RealmKind
    case ViewRoles | CreateRole | UpdateRole | DropRole => RealmKind
    case ReadDiagnostics | ManageServer => ServerKind
  }

  // ---------------------------------------------------------------- names and resources

  function CodePoints(name: string): (codes: seq<Bson.CodePoint>)
    ensures |codes| == |name| && forall i | 0 <= i < |name| :: codes[i] == name[i] as int
  {
    seq(|name|, i requires 0 <= i < |name| => name[i] as int)
  }

  /** The length of a name in UTF-8. */
  function ByteLength(name: string): nat {
    |Bson.Utf8(CodePoints(name))|
  }

  predicate DatabaseName(name: string) {
    name != [] && ByteLength(name) <= 63 && '\0' !in name
  }

  predicate DataDatabaseName(domain: DataDomain, name: string) {
    DatabaseName(name) && (domain.Relational? ==> CatalogLookup.ValidIdentifier(name))
  }

  datatype Resource =
    | Server
    | Realm(name: string)
    | Domain(domain: DataDomain)
    | DatabaseOf(domain: DataDomain, database: string)
    | Object(domain: DataDomain, database: string, collection: string)

  /** The resources the constructors let through. */
  predicate Constructible(r: Resource) {
    match r
    case Server => true
    case Realm(name) => DatabaseName(name)
    case Domain(_) => true
    case DatabaseOf(domain, database) => DataDatabaseName(domain, database)
    case Object(domain, database, collection) =>
      && DataDatabaseName(domain, database)
      && collection != [] && ByteLength(database) + 1 + ByteLength(collection) <= 255
      && '\0' !in collection
      && (domain.Relational? ==> CatalogLookup.ValidIdentifier(collection))
  }

  /** The full name of an object, with the dot between database and collection, takes at most 255 bytes. */
  lemma NamespaceFits(domain: DataDomain, database: string, collection: string)
    ensures ByteLength(database + "." + collection) == ByteLength(database) + 1 + ByteLength(collection)
    ensures Constructible(Object(domain, database, collection)) ==> ByteLength(database + "." + collection) <= 255
  {
    var front := database + ".";
    assert CodePoints(front) == CodePoints(database) + CodePoints(".");
    assert CodePoints(front + collection) == CodePoints(front) + CodePoints(collection);
    Bson.Utf8Concat(CodePoints(database), CodePoints("."));
    Bson.Utf8Concat(CodePoints(front), CodePoints(collection));
    Bson.Utf8Ascii(CodePoints("."));
  }

  function Kind(r: Resource): ResourceKind {
    match r
    case Server => ServerKind
    case Realm(_) => RealmKind
    case Domain(_) => DomainKind
    case DatabaseOf(_, _) => DatabaseKind
    case Object(_, _, _) => ObjectKind
  }

  function DomainOf(r: Resource): Option<DataDomain> {
    if r.Domain? || r.DatabaseOf? || r.Object? then Some(r.domain) else None
  }

  function DatabaseNameOf(r: Resource): Option<string> {
    if r.DatabaseOf? || r.Object? then Some(r.database) else None
  }

  // ---------------------------------------------------------------- scopes and privileges

  datatype Scope =
    | Exact(resource: Resource)
    | WholeDatabase(domain: DataDomain, database: string)
    | AllDatabases(domain: DataDomain)
    | AllSecurityRealms
    | NonSystemCollections(database: string)

  predicate ConstructibleScope(s: Scope) {
    match s
    case Exact(resource) => Constructible(resource)
    case WholeDatabase(domain, database) => DataDatabaseName(domain, database)
    case NonSystemCollections(database) => DataDatabaseName(Document, database)
    case _ => true
  }

  predicate Accepts(s: Scope, kind: ResourceKind) {
    match s
    case Exact(resource) => Kind(resource) == kind
    case WholeDatabase(_, _) => kind == DatabaseKind || kind == ObjectKind
    case AllDatabases(_) => kind == DomainKind || kind == DatabaseKind || kind == ObjectKind
    case AllSecurityRealms => kind == RealmKind
    case NonSystemCollections(_) => kind == ObjectKind
  }

  predicate Covers(s: Scope, r: Resource) {
    match s
    case Exact(exact) => exact == r
    case WholeDatabase(domain, database) => DomainOf(r) == Some(domain) && DatabaseNameOf(r) == Some(database)
    case AllDatabases(domain) => DomainOf(r) == Some(domain)
    case AllSecurityRealms => Kind(r) == RealmKind
    case NonSystemCollections(database) =>
      && DomainOf(r) == Some(Document) && DatabaseNameOf(r) == Some(database)
      && r.Object?
      && !("system." <= r.collection || (database == "local" && "replset." <= r.collection))
  }

  // ---------------------------------------------------------------- what scopes cover

  /** The domain, database and realm a scope is about, where it is about one. */
  function ScopeDomain(s: Scope): Option<DataDomain> {
    match s
    case Exact(resource) => DomainOf(resource)
    case WholeDatabase(domain, _) => Some(domain)
    case AllDatabases(domain) => Some(domain)
    case AllSecurityRealms => None
    case NonSystemCollections(_) => Some(Document)
  }

  function ScopeDatabase(s: Scope): Option<string> {
    match s
    case Exact(resource) => DatabaseNameOf(resource)
    case WholeDatabase(_, database) => Some(database)
    case NonSystemCollections(database) => Some(database)
    case _ => None
  }

  function RealmOf(r: Resource): Option<string> {
    if r.Realm? then Some(r.name) else None
  }

  /**
   Isolation: a scope covers nothing outside its domain, nothing outside its database and, if it is one
   realm, no other. The server is covered by name only, and no scope mixes data with realms.
   */
  lemma ScopesAreIsolated(s: Scope, r: Resource)
    requires Covers(s, r)
    ensures DomainOf(r) == ScopeDomain(s)
    ensures ScopeDatabase(s).Some? ==> DatabaseNameOf(r) == ScopeDatabase(s)
    ensures s.Exact? ==> RealmOf(r) == RealmOf(s.resource)
    ensures r.Realm? <==> s.AllSecurityRealms? || (s.Exact? && s.resource.Realm?)
    ensures r.Server? <==> s == Exact(Server)
  {
  }

  /** The resources of a database: the database itself and its objects, and nothing else. */
  lemma WholeDatabaseCovers(domain: DataDomain, database: string, r: Resource)
    ensures Covers(WholeDatabase(domain, database), r)
            <==> r == DatabaseOf(domain, database) || exists c :: r == Object(domain, database, c)
  {
    if Covers(WholeDatabase(domain, database), r) && r.Object? {
      assert r == Object(domain, database, r.collection);
    }
  }

  /** All databases of a domain are the domain itself and what is in some database of it. */
  lemma AllDatabasesCovers(domain: DataDomain, r: Resource)
    ensures Covers(AllDatabases(domain), r)
            <==> r == Domain(domain) || exists database :: Covers(WholeDatabase(domain, database), r)
  {
    if Covers(AllDatabases(domain), r) && r != Domain(domain) {
      assert Covers(WholeDatabase(domain, r.database), r);
    }
  }

  /** A whole database is exactly the part of all databases that is in it. */
  lemma WholeDatabaseIsPart(domain: DataDomain, database: string, r: Resource)
    ensures Covers(WholeDatabase(domain, database), r)
            <==> Covers(AllDatabases(domain), r) && DatabaseNameOf(r) == Some(database)
  {
  }

  /** Collections the engine keeps for itself: `system.*` everywhere, `replset.*` in `local`. */
  predicate SystemName(database: string, collection: string) {
    || (|collection| >= 7 && collection[..7] == "system.")
    || (database == "local" && |collection| >= 8 && collection[..8] == "replset.")
  }

  /** The non-system collections are exactly the objects of the document database with other names. */
  lemma NonSystemIsPart(database: string, r: Resource)
    ensures Covers(NonSystemCollections(database), r)
            <==> && Covers(WholeDatabase(Document, database), r) && r.Object?
                 && !SystemName(database, r.collection)
  {
  }

  ghost predicate Contains(large: Scope, small: Scope) {
    forall r | Covers(small, r) :: Covers(large, r)
  }

  /** One resource is covered exactly if its own scope is contained; scopes of one resource are least. */
  lemma ExactIsLeast(s: Scope, r: Resource)
    ensures Covers(s, r) <==> Contains(s, Exact(r))
  {
    assert Covers(Exact(r), r);
  }

  /** Scopes are nested: collections in their database, databases in their domain, realms in all realms. */
  lemma ScopesAreNested(domain: DataDomain, database: string, r: Resource)
    ensures Contains(AllDatabases(domain), WholeDatabase(domain, database))
    ensures Contains(WholeDatabase(Document, database), NonSystemCollections(database))
    ensures Contains(WholeDatabase(domain, database), Exact(r))
            <==> DomainOf(r) == Some(domain) && DatabaseNameOf(r) == Some(database)
    ensures Contains(AllSecurityRealms, Exact(r)) <==> r.Realm?
  {
    ExactIsLeast(WholeDatabase(domain, database), r);
    ExactIsLeast(AllSecurityRealms, r);
  }

  datatype Privilege = Privilege(action: Action, scope: Scope)

  datatype AuthorizationError = Invalid | Limit | Denied

  function NewPrivilege(action: Action, scope: Scope): Result<Privilege, AuthorizationError> {
    if Accepts(scope, KindOf(action)) then Ok(Privilege(action, scope)) else Err(Invalid)
  }

  predicate OnObjects(a: Action) {
    || a.ReadData? || a.InsertData? || a.UpdateData? || a.DeleteData? || a.CreateObject? || a.DropObject?
    || a.ListIndexes? || a.CreateIndex? || a.DropIndex?
  }

  predicate OnDatabases(a: Action) {
    a.ConnectDatabase? || a.ListObjects? || a.CreateDatabase? || a.DropDatabase?
  }

  predicate OnServer(a: Action) {
    a.ReadDiagnostics? || a.ManageServer?
  }

  /** Which actions can be granted on which scopes. */
  lemma GrantableActions(a: Action, domain: DataDomain, database: string)
    ensures NewPrivilege(a, NonSystemCollections(database)).Ok? <==> OnObjects(a)
    ensures NewPrivilege(a, WholeDatabase(domain, database)).Ok? <==> OnObjects(a) || OnDatabases(a)
    ensures NewPrivilege(a, AllDatabases(domain)).Ok? <==> OnObjects(a) || OnDatabases(a) || a.ListDatabases?
    ensures NewPrivilege(a, Exact(Server)).Ok? <==> OnServer(a)
    ensures NewPrivilege(a, AllSecurityRealms).Ok?
            <==> !OnObjects(a) && !OnDatabases(a) && !OnServer(a) && !a.ListDatabases?
  {
  }

  /** A resource of the kind inside the scope, if the scope accepts the kind. */
  function Witness(s: Scope, kind: ResourceKind): Resource {
    match s
    case Exact(resource) => resource
    case WholeDatabase(domain, database) =>
      if kind == DatabaseKind then DatabaseOf(domain, database) else Object(domain, database, "a")
    case AllDatabases(domain) =>
      if kind == DomainKind then Domain(domain)
      else if kind == DatabaseKind then DatabaseOf(domain, "a")
      else Object(domain, "a", "a")
    case AllSecurityRealms => Realm("a")
    case NonSystemCollections(database) => Object(Document, database, "a")
  }

  /** A grant is accepted exactly when there is something it could ever allow. */
  lemma PrivilegeIsUseful(action: Action, scope: Scope)
    requires ConstructibleScope(scope)
    ensures NewPrivilege(action, scope).Ok?
            <==> exists r :: Constructible(r) && Kind(r) == KindOf(action) && Covers(scope, r)
  {
    if Accepts(scope, KindOf(action)) {
      WitnessFits(scope, KindOf(action));
      assert Constructible(Witness(scope, KindOf(action)));
    }
  }

  lemma WitnessFits(s: Scope, kind: ResourceKind)
    requires ConstructibleScope(s) && Accepts(s, kind)
    ensures Constructible(Witness(s, kind)) && Kind(Witness(s, kind)) == kind && Covers(s, Witness(s, kind))
  {
    assert ByteLength("a") == 1 by {
      Bson.Utf8Ascii(CodePoints("a"));
    }
    assert CatalogLookup.ValidIdentifier("a") by {
      assert "a"[0] == 'a' && !("briskdb_" <= "a") && !("sqlite_" <= "a");
    }
    assert !("system." <= "a") && !("replset." <= "a");
  }

  // ---------------------------------------------------------------- policies

  datatype Policy = Policy(privileges: set<Privilege>)

  const MAX_POLICY_PRIVILEGES: nat := 256
  const MAX_POLICY_ROLES: nat := 64
  const MAX_AUTHORIZATION_REQUIREMENTS: nat := 256

  predicate Allows(p: Policy, action: Action, r: Resource) {
    && KindOf(action) == Kind(r)
    && exists grant | grant in p.privileges :: grant.action == action && Covers(grant.scope, r)
  }

  /** What is allowed was granted for this very action, in the resource's own domain, database and realm. */
  lemma GrantsAreIsolated(p: Policy, action: Action, r: Resource)
    requires Allows(p, action, r)
    ensures exists grant | grant in p.privileges ::
              && grant.action == action && ScopeDomain(grant.scope) == DomainOf(r)
              && (ScopeDatabase(grant.scope).Some? ==> ScopeDatabase(grant.scope) == DatabaseNameOf(r))
              && (grant.scope.Exact? ==> grant.scope.resource == r)
  {
    var grant :| grant in p.privileges && grant.action == action && Covers(grant.scope, r);
    ScopesAreIsolated(grant.scope, r);
  }

  /** A policy whose grants are all for one database of one domain allows nothing outside it. */
  lemma OneDatabaseOnly(p: Policy, domain: DataDomain, database: string, action: Action, r: Resource)
    requires forall grant | grant in p.privileges ::
               ScopeDomain(grant.scope) == Some(domain) && ScopeDatabase(grant.scope) == Some(database)
    requires Allows(p, action, r)
    ensures r == DatabaseOf(domain, database) || exists c :: r == Object(domain, database, c)
  {
    GrantsAreIsolated(p, action, r);
    assert DomainOf(r) == Some(domain) && DatabaseNameOf(r) == Some(database);
    assert r.Object? ==> r == Object(domain, database, r.collection);
  }

  /** Grants for other actions make no difference. */
  lemma ActionsAreIndependent(p: Policy, action: Action, r: Resource)
    ensures var own := Policy(set grant | grant in p.privileges && grant.action == action);
            Allows(p, action, r) <==> Allows(own, action, r)
  {
  }

  /** A policy whose grants lie within another's allows no more. */
  lemma WiderPolicyAllows(p: Policy, q: Policy, action: Action, r: Resource)
    requires forall grant | grant in p.privileges ::
               exists wide | wide in q.privileges :: wide.action == grant.action && Contains(wide.scope, grant.scope)
    requires Allows(p, action, r)
    ensures Allows(q, action, r)
  {
    var grant :| grant in p.privileges && grant.action == action && Covers(grant.scope, r);
    var wide :| wide in q.privileges && wide.action == grant.action && Contains(wide.scope, grant.scope);
    assert Covers(wide.scope, r);
  }

  /** What one grant for a whole database allows, without reference to scopes. */
  lemma WholeDatabaseAllows(action: Action, domain: DataDomain, database: string, r: Resource)
    ensures Allows(Policy({Privilege(action, WholeDatabase(domain, database))}), action, r)
            <==> && KindOf(action) == Kind(r)
                 && (r == DatabaseOf(domain, database) || exists c :: r == Object(domain, database, c))
  {
    WholeDatabaseCovers(domain, database, r);
    assert Privilege(action, WholeDatabase(domain, database))
        in Policy({Privilege(action, WholeDatabase(domain, database))}).privileges;
  }

  /** The length limit is on the input, before duplicates are dropped. */
  method NewPolicy(input: seq<Privilege>) returns (r: Result<Policy, AuthorizationError>)
    ensures r.Ok? <==> |input| <= MAX_POLICY_PRIVILEGES
    ensures r.Ok? ==> forall grant :: grant in r.value.privileges <==> grant in input
  {
    var privileges: set<Privilege> := {};
    for index := 0 to |input|
      invariant index <= MAX_POLICY_PRIVILEGES
      invariant forall grant :: grant in privileges <==> grant in input[..index]
    {
      if index >= MAX_POLICY_PRIVILEGES {
        return Err(Limit);
      }
      privileges := privileges + {input[index]};
    }
    return Ok(Policy(privileges));
  }

  /** All distinct grants of some roles. */
  function Grants(roles: seq<Policy>): set<Privilege> {
    if roles == [] then {} else Grants(roles[..|roles| - 1]) + roles[|roles| - 1].privileges
  }

  lemma {:induction false} GrantsMeaning(roles: seq<Policy>, grant: Privilege)
    ensures grant in Grants(roles) <==> exists i | 0 <= i < |roles| :: grant in roles[i].privileges
  {
    if roles != [] {
      var n := |roles| - 1;
      GrantsMeaning(roles[..n], grant);
      assert forall i | 0 <= i < n :: roles[..n][i] == roles[i];
    }
  }

  lemma {:induction false} CardinalityOfSubset<T>(small: set<T>, large: set<T>)
    requires small <= large
    ensures |small| <= |large|
  {
    if small != {} {
      var x :| x in small;
      CardinalityOfSubset(small - {x}, large - {x});
    }
  }

  lemma {:induction false} GrantsGrow(roles: seq<Policy>, n: nat)
    requires n <= |roles|
    ensures Grants(roles[..n]) <= Grants(roles)
  {
    if n < |roles| {
      var front := roles[..|roles| - 1];
      GrantsGrow(front, n);
      assert front[..n] == roles[..n];
    } else {
      assert roles[..n] == roles;
    }
  }

  /** One more role adds its grants, and too many grants of some roles are too many of all. */
  lemma GrantsNext(roles: seq<Policy>, i: nat)
    requires i < |roles|
    ensures Grants(roles[..i + 1]) == Grants(roles[..i]) + roles[i].privileges
    ensures |Grants(roles[..i + 1])| <= |Grants(roles)|
  {
    assert roles[..i + 1][..i] == roles[..i];
    GrantsGrow(roles, i + 1);
    CardinalityOfSubset(Grants(roles[..i + 1]), Grants(roles));
  }

  /** At most 64 roles with at most 256 distinct grants between them, or a limit error. */
  function Combined(roles: seq<Policy>): Result<Policy, AuthorizationError> {
    if |roles| > MAX_POLICY_ROLES || |Grants(roles)| > MAX_POLICY_PRIVILEGES then Err(Limit)
    else Ok(Policy(Grants(roles)))
  }

  /** Role by role and grant by grant, with the limits checked on the way. */
  method Combine(roles: seq<Policy>) returns (r: Result<Policy, AuthorizationError>)
    ensures r == Combined(roles)
  {
    var privileges: set<Privilege> := {};
    for index := 0 to |roles|
      invariant index <= MAX_POLICY_ROLES
      invariant privileges == Grants(roles[..index]) && |privileges| <= MAX_POLICY_PRIVILEGES
    {
      if index >= MAX_POLICY_ROLES {
        return Err(Limit);
      }
      var merged := Merge(privileges, roles[index].privileges);
      GrantsNext(roles, index);
      if merged.Err? {
        return Err(Limit);
      }
      privileges := merged.value;
    }
    assert roles[..|roles|] == roles;
    return Ok(Policy(privileges));
  }

  /** One role's grants added one by one, in any order, as long as they fit. */
  method Merge(start: set<Privilege>, role: set<Privilege>) returns (r: Result<set<Privilege>, AuthorizationError>)
    requires |start| <= MAX_POLICY_PRIVILEGES
    ensures r.Ok? <==> |start + role| <= MAX_POLICY_PRIVILEGES
    ensures r.Ok? ==> r.value == start + role
  {
    var privileges, rest := start, role;
    while rest != {}
      invariant rest <= role && privileges == start + (role - rest)
      invariant |privileges| <= MAX_POLICY_PRIVILEGES
      decreases rest
    {
      var privilege :| privilege in rest;
      rest := rest - {privilege};
      if privilege !in privileges {
        if |privileges| == MAX_POLICY_PRIVILEGES {
          CardinalityOfSubset(privileges + {privilege}, start + role);
          return Err(Limit);
        }
        privileges := privileges + {privilege};
      }
    }
    return Ok(privileges);
  }

  /** A combined policy allows a request exactly if one of the roles does. */
  lemma CombinedAllows(roles: seq<Policy>, action: Action, r: Resource)
    ensures Allows(Policy(Grants(roles)), action, r) <==> exists role | role in roles :: Allows(role, action, r)
  {
    var combined := Policy(Grants(roles));
    if Allows(combined, action, r) {
      var grant :| grant in combined.privileges && grant.action == action && Covers(grant.scope, r);
      GrantsMeaning(roles, grant);
      var i :| 0 <= i < |roles| && grant in roles[i].privileges;
      assert Allows(roles[i], action, r);
    }
    if role :| role in roles && Allows(role, action, r) {
      var grant :| grant in role.privileges && grant.action == action && Covers(grant.scope, r);
      GrantsMeaning(roles, grant);
    }
  }

  /** The same roles grant the same, in any order and number. */
  lemma SameRolesSameGrants(roles: seq<Policy>, others: seq<Policy>)
    requires forall role :: role in roles <==> role in others
    ensures Grants(roles) == Grants(others)
  {
    forall grant ensures grant in Grants(roles) <==> grant in Grants(others) {
      GrantsMeaning(roles, grant);
      GrantsMeaning(others, grant);
      if i :| 0 <= i < |roles| && grant in roles[i].privileges {
        assert roles[i] in others;
      }
      if i :| 0 <= i < |others| && grant in others[i].privileges {
        assert others[i] in roles;
      }
    }
  }

  /** The order of the roles never matters to the outcome. */
  lemma OrderIsIrrelevant(roles: seq<Policy>, others: seq<Policy>)
    requires multiset(roles) == multiset(others)
    ensures Combined(roles) == Combined(others)
  {
    assert |roles| == |multiset(roles)| == |multiset(others)| == |others|;
    forall role ensures role in roles <==> role in others {
      assert role in multiset(roles) <==> role in multiset(others);
    }
    SameRolesSameGrants(roles, others);
  }

  /**
   Repetition matters through the role limit alone: two lists of the same roles have the same
   outcome exactly if both or neither exceed it, or the grants are too many anyway.
   */
  lemma RepetitionOnlyCounts(roles: seq<Policy>, others: seq<Policy>)
    requires forall role :: role in roles <==> role in others
    ensures Combined(roles) == Combined(others)
            <==> || (|roles| <= MAX_POLICY_ROLES <==> |others| <= MAX_POLICY_ROLES)
                 || |Grants(roles)| > MAX_POLICY_PRIVILEGES
  {
    SameRolesSameGrants(roles, others);
  }

  /** Sixty-five copies of a role are refused where one is accepted. */
  lemma RepeatedRoleIsRefused(role: Policy)
    requires |role.privileges| <= MAX_POLICY_PRIVILEGES
    ensures Combined([role]) == Ok(role) && Combined(seq(65, _ => role)) == Err(Limit)
  {
    assert [role][..0] == [];
    assert Grants([role]) == role.privileges;
  }

  datatype Requirement = Requirement(action: Action, resource: Resource)

  predicate Satisfied(p: Policy, needed: Requirement) {
    Allows(p, needed.action, needed.resource)
  }

  /** All requirements or nothing, and never on an empty or oversized list. */
  method AuthorizeAll(p: Policy, requirements: seq<Requirement>) returns (r: Result<(), AuthorizationError>)
    ensures r.Ok? <==> 1 <= |requirements| <= MAX_AUTHORIZATION_REQUIREMENTS
                       && forall needed | needed in requirements :: Satisfied(p, needed)
    ensures r == Err(Limit) <==> |requirements| > MAX_AUTHORIZATION_REQUIREMENTS
                                 && forall needed | needed in requirements[..MAX_AUTHORIZATION_REQUIREMENTS] ::
                                      Satisfied(p, needed)
  {
    var requested := false;
    for index := 0 to |requirements|
      invariant index <= MAX_AUTHORIZATION_REQUIREMENTS
      invariant forall needed | needed in requirements[..index] :: Satisfied(p, needed)
      invariant requested <==> index > 0
    {
      if index >= MAX_AUTHORIZATION_REQUIREMENTS {
        return Err(Limit);
      }
      if !Satisfied(p, requirements[index]) {
        assert requirements[index] in requirements;
        assert |requirements| > MAX_AUTHORIZATION_REQUIREMENTS ==>
            requirements[index] == requirements[..MAX_AUTHORIZATION_REQUIREMENTS][index];
        return Err(Denied);
      }
      requested := true;
    }
    assert requirements[..|requirements|] == requirements;
    if !requested {
      return Err(Denied);
    }
    return Ok(());
  }
}
