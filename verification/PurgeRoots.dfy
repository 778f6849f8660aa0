/** Resolving the account, the shops it alone owns, and the tenants it owns completely. */
module PurgeRoots {
  import opened Wrappers
  import opened PurgeSchema

  datatype Roots = Roots(userId: Id, shopIds: set<Id>, sharedShopIds: set<Id>, tenantIds: set<Id>)

  datatype RootError = AmbiguousEmail | PrivilegedAccount(role: string)

  function UsersWithEmail(db: Db, lower: string -> string, email: string): set<Id> {
    set id | id in Rows(db, "users") && "email" in Rows(db, "users")[id]
          && lower(Rows(db, "users")[id]["email"]) == lower(email)
  }

  /** The shops of which `userId` is a member. */
  function ShopsOf(db: Db, userId: Id): set<Id> {
    set m | m in Rows(db, "user_shops")
         && Refers(Rows(db, "user_shops")[m], "user_id", {userId})
         && "shop_id" in Rows(db, "user_shops")[m]
         :: Rows(db, "user_shops")[m]["shop_id"]
  }

  function OtherMembers(db: Db, shopId: Id, userId: Id): set<Id> {
    set m | m in Rows(db, "user_shops")
         && Refers(Rows(db, "user_shops")[m], "shop_id", {shopId})
         && "user_id" in Rows(db, "user_shops")[m]
         && Rows(db, "user_shops")[m]["user_id"] != userId
  }

  function TenantsOf(db: Db, shopIds: set<Id>): set<Id> {
    set s | s in Rows(db, "shops") && s in shopIds && "tenant_id" in Rows(db, "shops")[s]
         :: Rows(db, "shops")[s]["tenant_id"]
  }

  function OutsideShops(db: Db, tenantId: Id, shopIds: set<Id>): set<Id> {
    set s | s in Rows(db, "shops") && Refers(Rows(db, "shops")[s], "tenant_id", {tenantId}) && s !in shopIds
  }

  /** `user_shops.shop_id` and `.user_id` are NOT NULL in the schema. */
  ghost predicate MembershipsComplete(db: Db) {
    forall m | m in Rows(db, "user_shops") ::
      "shop_id" in Rows(db, "user_shops")[m] && "user_id" in Rows(db, "user_shops")[m]
  }

  // ---------------------------------------------------------------- what the roots are, row by row

  ghost predicate HasAddress(db: Db, lower: string -> string, email: string, user: Id) {
    exists stored :: Holds(db, "users", user, "email", stored) && lower(stored) == lower(email)
  }

  /** No stored user with an email has the address. */
  ghost predicate NoAddress(db: Db, lower: string -> string, email: string) {
    forall user, stored | Holds(db, "users", user, "email", stored) :: lower(stored) != lower(email)
  }

  ghost predicate OnlyAddress(db: Db, lower: string -> string, email: string, user: Id) {
    forall u :: HasAddress(db, lower, email, u) <==> u == user
  }

  ghost predicate IsMember(db: Db, row: Id, shop: Id, user: Id) {
    Holds(db, "user_shops", row, "shop_id", shop) && Holds(db, "user_shops", row, "user_id", user)
  }

  /** The user is a member of the shop, and every membership of the shop is the user's. */
  ghost predicate OwnsAlone(db: Db, shop: Id, user: Id) {
    && (exists m :: IsMember(db, m, shop, user))
    && forall m | Holds(db, "user_shops", m, "shop_id", shop) :: Holds(db, "user_shops", m, "user_id", user)
  }

  ghost predicate Shares(db: Db, shop: Id, user: Id) {
    (exists m :: IsMember(db, m, shop, user)) && exists m, other :: IsMember(db, m, shop, other) && other != user
  }

  /** Some shop among `shopIds` is the tenant's, and no other shop is. */
  ghost predicate OwnsWholly(db: Db, tenant: Id, shopIds: set<Id>) {
    && (exists s :: s in shopIds && Holds(db, "shops", s, "tenant_id", tenant))
    && forall s | Holds(db, "shops", s, "tenant_id", tenant) :: s in shopIds
  }

  /**
   The roots of an account that may be purged: the one user with the address, without a platform role, the
   shops it alone is a member of, those it shares, and the tenants all of whose shops are among the first.
   */
  ghost predicate RootsFound(db: Db, lower: string -> string, email: string, roots: Roots) {
    && OnlyAddress(db, lower, email, roots.userId)
    && (forall role | Holds(db, "users", roots.userId, "platform_role", role) :: role in {"", "NONE"})
    && (forall s :: s in roots.shopIds <==> OwnsAlone(db, s, roots.userId))
    && (forall s :: s in roots.sharedShopIds <==> Shares(db, s, roots.userId))
    && (forall t :: t in roots.tenantIds <==> OwnsWholly(db, t, roots.shopIds))
  }

  /** Why an account is refused. */
  ghost predicate RootRefusal(db: Db, lower: string -> string, email: string, e: RootError) {
    match e
    case AmbiguousEmail =>
      exists a, b :: HasAddress(db, lower, email, a) && HasAddress(db, lower, email, b) && a != b
    case PrivilegedAccount(role) =>
      exists u :: OnlyAddress(db, lower, email, u) && Holds(db, "users", u, "platform_role", role)
                  && role !in {"", "NONE"}
  }

  /** What the rows say of the address; Ok(None) is "no user with that email". */
  ghost predicate Resolves(db: Db, lower: string -> string, email: string, r: Result<Option<Roots>, RootError>) {
    match r
    case Ok(None) => NoAddress(db, lower, email)
    case Ok(Some(roots)) => RootsFound(db, lower, email, roots)
    case Err(e) => RootRefusal(db, lower, email, e)
  }

  lemma {:induction false} RootsAreUnique(db: Db, lower: string -> string, email: string, a: Roots, b: Roots)
    requires RootsFound(db, lower, email, a) && RootsFound(db, lower, email, b)
    ensures a == b
  {
    assert HasAddress(db, lower, email, a.userId);
    assert a.shopIds == b.shopIds && a.sharedShopIds == b.sharedShopIds;
    assert a.tenantIds == b.tenantIds;
  }

  /** The rows give an address one answer, and addresses that agree in lower case the same one. */
  lemma {:induction false} AnswerIsUnique(
      db: Db, lower: string -> string, email: string, other: string, a: Result<Option<Roots>, RootError>,
      b: Result<Option<Roots>, RootError>)
    requires lower(email) == lower(other) && Resolves(db, lower, email, a) && Resolves(db, lower, other, b)
    ensures a == b
  {
    SameAddress(db, lower, email, other, b);
    AddressesFound(db, lower, email, a);
    AddressesFound(db, lower, email, b);
    if a.Ok? && b.Ok? && a.value.Some? && b.value.Some? {
      RootsAreUnique(db, lower, email, a.value.value, b.value.value);
    }
  }

  lemma {:induction false} SameAddress(
      db: Db, lower: string -> string, email: string, other: string, r: Result<Option<Roots>, RootError>)
    requires lower(email) == lower(other) && Resolves(db, lower, other, r)
    ensures Resolves(db, lower, email, r)
  {
    assert forall u :: HasAddress(db, lower, other, u) <==> HasAddress(db, lower, email, u);
  }

  /** How many users have the address, for each answer. */
  lemma {:induction false} AddressesFound(
      db: Db, lower: string -> string, email: string, r: Result<Option<Roots>, RootError>)
    requires Resolves(db, lower, email, r)
    ensures r == Ok(None) <==> forall u :: !HasAddress(db, lower, email, u)
    ensures r == Err(AmbiguousEmail) <==>
      exists a, b :: HasAddress(db, lower, email, a) && HasAddress(db, lower, email, b) && a != b
  {
    if r.Ok? && r.value.Some? { assert HasAddress(db, lower, email, r.value.value.userId); }
    if r.Err? && r.error.PrivilegedAccount? {
      var u :| OnlyAddress(db, lower, email, u) && Holds(db, "users", u, "platform_role", r.error.role);
      assert HasAddress(db, lower, email, u);
    }
  }

  // ---------------------------------------------------------------- reading them

  lemma {:induction false} MembersRead(db: Db, shop: Id, user: Id)
    requires MembershipsComplete(db)
    ensures shop in ShopsOf(db, user) <==> exists m :: IsMember(db, m, shop, user)
    ensures OtherMembers(db, shop, user) != {} <==> exists m, other :: IsMember(db, m, shop, other) && other != user
    ensures OtherMembers(db, shop, user) == {} <==>
      forall m | Holds(db, "user_shops", m, "shop_id", shop) :: Holds(db, "user_shops", m, "user_id", user)
  {
    if shop in ShopsOf(db, user) {
      var m :| m in Rows(db, "user_shops") && Refers(Rows(db, "user_shops")[m], "user_id", {user})
               && "shop_id" in Rows(db, "user_shops")[m] && Rows(db, "user_shops")[m]["shop_id"] == shop;
      assert IsMember(db, m, shop, user);
    }
    if m :| IsMember(db, m, shop, user) {
      assert m in Rows(db, "user_shops");
      assert Rows(db, "user_shops")[m]["shop_id"] == shop;
    }
    if m, other :| IsMember(db, m, shop, other) && other != user {
      assert m in OtherMembers(db, shop, user);
    }
    if m :| m in OtherMembers(db, shop, user) {
      assert IsMember(db, m, shop, Rows(db, "user_shops")[m]["user_id"]);
    }
    forall m | Holds(db, "user_shops", m, "shop_id", shop) && !Holds(db, "user_shops", m, "user_id", user)
      ensures m in OtherMembers(db, shop, user)
    {}
  }

  /** Splits the user's shops into those it alone is a member of and those it shares. */
  method ResolveShops(db: Db, userId: Id) returns (shopIds: set<Id>, shared: set<Id>)
    requires MembershipsComplete(db)
    ensures forall s :: s in shopIds <==> OwnsAlone(db, s, userId)
    ensures forall s :: s in shared <==> Shares(db, s, userId)
  {
    var candidates := ShopsOf(db, userId);
    var todo := candidates;
    shopIds, shared := {}, {};
    while todo != {}
      invariant todo <= candidates
      invariant forall s :: s in shopIds <==> s in candidates - todo && OtherMembers(db, s, userId) == {}
      invariant forall s :: s in shared <==> s in candidates - todo && OtherMembers(db, s, userId) != {}
      decreases todo
    {
      var s :| s in todo;
      if |OtherMembers(db, s, userId)| == 0 {
        shopIds := shopIds + {s};
      } else {
        shared := shared + {s};
      }
      todo := todo - {s};
    }
    forall s ensures (s in shopIds <==> OwnsAlone(db, s, userId)) && (s in shared <==> Shares(db, s, userId)) {
      MembersRead(db, s, userId);
    }
  }

  lemma {:induction false} TenantsRead(db: Db, tenant: Id, shopIds: set<Id>)
    ensures OwnsWholly(db, tenant, shopIds) <==>
      tenant in TenantsOf(db, shopIds) && OutsideShops(db, tenant, shopIds) == {}
  {
    if s :| s in shopIds && Holds(db, "shops", s, "tenant_id", tenant) {
      assert Rows(db, "shops")[s]["tenant_id"] == tenant;
    }
    if OutsideShops(db, tenant, shopIds) == {} {
      forall s | Holds(db, "shops", s, "tenant_id", tenant) ensures s in shopIds {
        assert s !in OutsideShops(db, tenant, shopIds);
      }
    }
  }

  /** A tenant is in scope only when every shop under it is. */
  method ResolveTenants(db: Db, shopIds: set<Id>) returns (tenantIds: set<Id>)
    ensures forall t :: t in tenantIds <==> OwnsWholly(db, t, shopIds)
  {
    var candidates := TenantsOf(db, shopIds);
    var todo := candidates;
    tenantIds := {};
    while todo != {}
      invariant todo <= candidates
      invariant forall t :: t in tenantIds <==> t in candidates - todo && OutsideShops(db, t, shopIds) == {}
      decreases todo
    {
      var t :| t in todo;
      if |OutsideShops(db, t, shopIds)| == 0 { tenantIds := tenantIds + {t}; }
      todo := todo - {t};
    }
    forall t ensures t in tenantIds <==> OwnsWholly(db, t, shopIds) {
      TenantsRead(db, t, shopIds);
    }
  }

  function RoleOf(db: Db, userId: Id): string {
    if userId in Rows(db, "users") && "platform_role" in Rows(db, "users")[userId]
    then Rows(db, "users")[userId]["platform_role"] else ""
  }

  lemma {:induction false} UsersRead(db: Db, lower: string -> string, email: string)
    ensures forall u :: u in UsersWithEmail(db, lower, email) <==> HasAddress(db, lower, email, u)
    ensures UsersWithEmail(db, lower, email) == {} <==> NoAddress(db, lower, email)
  {
    forall u ensures u in UsersWithEmail(db, lower, email) <==> HasAddress(db, lower, email, u) {
      if u in UsersWithEmail(db, lower, email) {
        assert Holds(db, "users", u, "email", Rows(db, "users")[u]["email"]);
      }
    }
    if UsersWithEmail(db, lower, email) == {} {
      forall u, stored | Holds(db, "users", u, "email", stored) ensures lower(stored) != lower(email) {
        assert u !in UsersWithEmail(db, lower, email);
      }
    } else {
      var u :| u in UsersWithEmail(db, lower, email);
      assert Holds(db, "users", u, "email", Rows(db, "users")[u]["email"]);
    }
  }

  /** The four answers exclude one another. */
  method ResolveRoots(db: Db, lower: string -> string, email: string)
    returns (r: Result<Option<Roots>, RootError>)
    requires MembershipsComplete(db)
    ensures Resolves(db, lower, email, r)
  {
    UsersRead(db, lower, email);
    var matches := UsersWithEmail(db, lower, email);
    if matches == {} { return Ok(None); }
    var userId :| userId in matches;
    if |matches| > 1 {
      SecondMember(matches, userId);
      return Err(AmbiguousEmail);
    }
    assert matches == {userId} by {
      assert |matches - {userId}| == 0;
    }
    var role := RoleOf(db, userId);
    if role != "" && role != "NONE" {
      assert Holds(db, "users", userId, "platform_role", role);
      return Err(PrivilegedAccount(role));
    }
    var shopIds, shared := ResolveShops(db, userId);
    var tenantIds := ResolveTenants(db, shopIds);
    r := Ok(Some(Roots(userId, shopIds, shared, tenantIds)));
  }

  lemma {:induction false} SecondMember(s: set<Id>, a: Id)
    requires a in s && |s| > 1
    ensures exists b :: b in s && b != a
  {
    assert |s - {a}| > 0;
    var b :| b in s - {a};
  }

  ghost predicate HasKey(fks: seq<ForeignKey>, child: Table, column: Column, parent: Table) {
    exists fk :: fk in fks && fk.childTable == child && fk.childColumn == column && fk.parentTable == parent
  }

  /** The two foreign keys the roots are read along. */
  ghost predicate RootKeys(fks: seq<ForeignKey>) {
    HasKey(fks, "user_shops", "shop_id", "shops") && HasKey(fks, "shops", "tenant_id", "tenants")
  }

  /** The roots of a database that keeps its keys are stored rows. */
  lemma {:induction false} RootsAreStored(db: Db, fks: seq<ForeignKey>, lower: string -> string, email: string,
                                          roots: Roots)
    requires Integrity(db, fks) && RootKeys(fks) && RootsFound(db, lower, email, roots)
    ensures roots.userId in Rows(db, "users")
    ensures roots.shopIds <= Rows(db, "shops").Keys && roots.tenantIds <= Rows(db, "tenants").Keys
  {
    assert HasAddress(db, lower, email, roots.userId);
    var members :|
      members in fks && members.childTable == "user_shops" && members.childColumn == "shop_id" &&
      members.parentTable == "shops";
    var owners :|
      owners in fks && owners.childTable == "shops" && owners.childColumn == "tenant_id" &&
      owners.parentTable == "tenants";
    assert Satisfied(db, members) && Satisfied(db, owners);
    forall s | s in roots.shopIds ensures s in Rows(db, "shops") {
      var m :| IsMember(db, m, s, roots.userId);
      assert m in Rows(db, "user_shops");
    }
    forall t | t in roots.tenantIds ensures t in Rows(db, "tenants") {
      var s :| s in roots.shopIds && Holds(db, "shops", s, "tenant_id", t);
      assert s in Rows(db, "shops");
    }
  }
}
