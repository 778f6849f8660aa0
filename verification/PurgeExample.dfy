/**
 A database with both kinds of stray: another user last used a shop of the account, and a category of
 another shop has one of the account's for its parent.
 */
module PurgeExample {
  import opened PurgeSchema
  import opened PurgeRoots
  import opened PurgeScope
  import opened PurgeOrder
  import opened PurgeRun

  ghost function Keys(): seq<ForeignKey> {
    [MemberUser(), MemberShop(), LastShop(), Owner(), CategoryShop(), ParentCategory()]
  }

  ghost function MemberUser(): ForeignKey {
    ForeignKey("user_shops", "user_id", true, "users")
  }

  ghost function MemberShop(): ForeignKey {
    ForeignKey("user_shops", "shop_id", true, "shops")
  }

  ghost function LastShop(): ForeignKey {
    ForeignKey("users", "last_logged_shop_id", false, "shops")
  }

  ghost function Owner(): ForeignKey {
    ForeignKey("shops", "tenant_id", true, "tenants")
  }

  ghost function CategoryShop(): ForeignKey {
    ForeignKey("categories", "shop_id", true, "shops")
  }

  ghost function ParentCategory(): ForeignKey {
    ForeignKey("categories", "parent_category_id", false, "categories")
  }

  ghost function Users(): map<Id, Row> {
    map["ann" := map["email" := "a"], "bob" := map["email" := "b", "last_logged_shop_id" := "s"]]
  }

  ghost function Shops(): map<Id, Row> {
    map["s" := map["tenant_id" := "t"], "u" := map["tenant_id" := "v"]]
  }

  ghost function Members(): map<Id, Row> {
    map["m" := map["user_id" := "ann", "shop_id" := "s"]]
  }

  ghost function Categories(): map<Id, Row> {
    map["c" := map["shop_id" := "s"], "d" := map["shop_id" := "u", "parent_category_id" := "c"]]
  }

  ghost function Tables(): Db {
    map["users" := Users(), "shops" := Shops(), "tenants" := map["t" := map[], "v" := map[]],
        "user_shops" := Members(), "categories" := Categories()]
  }

  ghost function Purging(): Roots {
    Roots("ann", {"s"}, {}, {"t"})
  }

  ghost function DeleteSet(): Scope {
    map["users" := {"ann"}, "shops" := {"s"}, "tenants" := {"t"}, "user_shops" := {"m"}, "categories" := {"c"}]
  }

  ghost function DeleteOrder(): seq<Table> {
    ["categories", "user_shops", "users", "shops", "tenants"]
  }

  lemma {:induction false} Stored()
    ensures Rows(Tables(), "users") == Users() && Rows(Tables(), "shops") == Shops()
    ensures Rows(Tables(), "user_shops") == Members() && Rows(Tables(), "tenants").Keys == {"t", "v"}
    ensures Rows(Tables(), "categories") == Categories()
  {}

  lemma {:induction false} AccountKeysHold()
    ensures Satisfied(Tables(), MemberUser()) && Satisfied(Tables(), MemberShop()) && Satisfied(Tables(), LastShop())
  {
    Stored();
  }

  lemma {:induction false} ShopKeysHold()
    ensures Satisfied(Tables(), Owner()) && Satisfied(Tables(), CategoryShop())
    ensures Satisfied(Tables(), ParentCategory())
  {
    Stored();
  }

  lemma {:induction false} KeepsKeys()
    ensures Integrity(Tables(), Keys()) && ConsistentNullability(Keys())
  {
    AccountKeysHold();
    ShopKeysHold();
  }

  lemma {:induction false} OwnShops()
    ensures forall s :: s == "s" <==> OwnsAlone(Tables(), s, "ann")
    ensures forall s :: !Shares(Tables(), s, "ann")
  {
    assert IsMember(Tables(), "m", "s", "ann");
    forall m, shop, user | IsMember(Tables(), m, shop, user) ensures m == "m" && shop == "s" && user == "ann" {}
  }

  lemma {:induction false} OwnTenant()
    ensures forall t :: t == "t" <==> OwnsWholly(Tables(), t, {"s"})
  {
    assert Holds(Tables(), "shops", "s", "tenant_id", "t");
    forall t, s | s in {"s"} && Holds(Tables(), "shops", s, "tenant_id", t) ensures t == "t" {}
    forall s | Holds(Tables(), "shops", s, "tenant_id", "t") ensures s == "s" {}
  }

  lemma {:induction false} AccountIsFound(lower: string -> string)
    requires lower("a") != lower("b")
    ensures RootsFound(Tables(), lower, "a", Purging())
  {
    assert Holds(Tables(), "users", "ann", "email", "a");
    forall u | HasAddress(Tables(), lower, "a", u) ensures u == "ann" {}
    OwnShops();
    OwnTenant();
  }

  lemma {:induction false} Referred()
    ensures Referencing(Tables(), MemberUser(), {"ann"}) == {"m"}
    ensures Referencing(Tables(), MemberShop(), {"s"}) == {"m"}
    ensures Referencing(Tables(), LastShop(), {"s"}) == {"bob"}
    ensures Referencing(Tables(), Owner(), {"t"}) == {"s"}
    ensures Referencing(Tables(), CategoryShop(), {"s"}) == {"c"}
    ensures Referencing(Tables(), ParentCategory(), {"c"}) == {"d"}
  {
    Stored();
  }

  lemma {:induction false} ScopeIds()
    ensures Ids(DeleteSet(), "users") == {"ann"} && Ids(DeleteSet(), "shops") == {"s"}
    ensures Ids(DeleteSet(), "tenants") == {"t"} && Ids(DeleteSet(), "user_shops") == {"m"}
    ensures Ids(DeleteSet(), "categories") == {"c"}
    ensures forall t | t !in {"users", "shops", "tenants", "user_shops", "categories"} :: Ids(DeleteSet(), t) == {}
    ensures forall t | t !in {"user_shops", "categories"} :: Ids(DeleteSet(), t) == Ids(Start(Purging()), t)
  {}

  lemma {:induction false} IsClosed()
    ensures Closed(Tables(), Keys(), DeleteSet())
  {
    ScopeIds();
    Referred();
    assert !Expandable(LastShop()) && !Expandable(Owner()) && !Expandable(ParentCategory());
    assert ClosedFor(Tables(), MemberUser(), DeleteSet()) && ClosedFor(Tables(), MemberShop(), DeleteSet());
    assert ClosedFor(Tables(), CategoryShop(), DeleteSet());
  }

  lemma {:induction false} IsNeeded(s: Scope)
    requires Included(Start(Purging()), s) && Closed(Tables(), Keys(), s)
    ensures "m" in Ids(s, "user_shops") && "c" in Ids(s, "categories")
  {
    Referred();
    ScopeIds();
    assert Keys()[0] == MemberUser() && Keys()[4] == CategoryShop();
    assert Expandable(MemberUser()) && ClosedFor(Tables(), MemberUser(), s);
    assert Expandable(CategoryShop()) && ClosedFor(Tables(), CategoryShop(), s);
    assert Ids(Start(Purging()), "users") <= Ids(s, "users") && Ids(Start(Purging()), "shops") <= Ids(s, "shops");
    assert "m" in Referencing(Tables(), MemberUser(), Ids(s, "users"));
    assert "c" in Referencing(Tables(), CategoryShop(), Ids(s, "shops"));
  }

  lemma {:induction false} IsIncluded(s: Scope)
    requires Included(Start(Purging()), s) && Closed(Tables(), Keys(), s)
    ensures Included(DeleteSet(), s)
  {
    IsNeeded(s);
    ScopeIds();
    forall t ensures Ids(DeleteSet(), t) <= Ids(s, t) {
      assert Ids(Start(Purging()), t) <= Ids(s, t);
    }
  }

  lemma {:induction false} FixesRoots()
    ensures RootsFixed(Purging(), DeleteSet()) && Included(Start(Purging()), DeleteSet())
  {
    ScopeIds();
  }

  lemma {:induction false} IsLeast()
    ensures LeastScope(Tables(), Keys(), Purging(), DeleteSet()) && RootsFixed(Purging(), DeleteSet())
  {
    IsLeastAmong(Tables(), Keys(), Purging(), DeleteSet());
  }

  lemma {:induction false} IsLeastAmong(db: Db, fks: seq<ForeignKey>, roots: Roots, scope: Scope)
    requires db == Tables() && fks == Keys() && roots == Purging() && scope == DeleteSet()
    ensures LeastScope(db, fks, roots, scope) && RootsFixed(roots, scope)
  {
    FixesRoots();
    IsClosed();
    forall s | Included(Start(roots), s) && Closed(db, fks, s) ensures Included(scope, s) { IsIncluded(s); }
  }

  lemma {:induction false} NothingRetained()
    ensures RetainPlan(Tables(), Keys(), DeleteSet()) == []
  {
    NoChildRetained(Keys());
    NoKeyRetained(Tables(), Keys(), DeleteSet());
  }

  lemma {:induction false} NoChildRetained(keys: seq<ForeignKey>)
    requires keys == Keys()
    ensures forall fk | fk in keys :: fk.childTable !in RETAIN
  {}

  lemma {:induction false} NoKeyRetained(db: Db, keys: seq<ForeignKey>, scope: Scope)
    requires forall fk | fk in keys :: fk.childTable !in RETAIN
    ensures RetainPlan(db, keys, scope) == []
    decreases |keys|
  {
    if keys != [] { NoKeyRetained(db, keys[1..], scope); }
  }

  lemma {:induction false} Ordered()
    ensures Lists(DeleteOrder(), Populated(DeleteSet()))
    ensures ChildrenFirst(Edges(Populated(DeleteSet()), Keys()), DeleteOrder())
  {
    var tables := {"users", "shops", "tenants", "user_shops", "categories"};
    assert Populated(DeleteSet()) == tables;
    assert DeleteOrder()[0] == "categories" && DeleteOrder()[1] == "user_shops" && DeleteOrder()[2] == "users";
    assert DeleteOrder()[3] == "shops" && DeleteOrder()[4] == "tenants";
    KeyEdges(tables);
  }

  /** Every edge goes from a parent to one of its children. */
  lemma {:induction false} KeyEdges(tables: set<Table>)
    ensures forall e | e in Edges(tables, Keys()) ::
      e in {("users", "user_shops"), ("shops", "user_shops"), ("shops", "users"), ("tenants", "shops"),
            ("shops", "categories")}
  {}

  lemma {:induction false} CanBePlanned()
    ensures PlanReady(Tables(), Keys(), DeleteSet(), DeleteOrder())
  {
    KeepsKeys();
    IsLeast();
    NothingRetained();
    Ordered();
  }

  /**
   The account can be resolved and its purge planned, and still its statements do not keep the keys: bob's
   last shop is deleted, and so is the parent of category "d". Neither row is in scope, and a CASCADE on the
   parent takes "d" along.
   */
  lemma {:induction false} StrayExists(lower: string -> string)
    requires lower("a") != lower("b")
    ensures RootsFound(Tables(), lower, "a", Purging())
    ensures LeastScope(Tables(), Keys(), Purging(), DeleteSet())
    ensures PlanReady(Tables(), Keys(), DeleteSet(), DeleteOrder())
    ensures !NoOtherStrays(Tables(), Keys(), DeleteSet()) && "bob" !in Ids(DeleteSet(), "users")
    ensures "d" in Referencing(Tables(), ParentCategory(), Ids(DeleteSet(), "categories"))
    ensures "d" !in Ids(DeleteSet(), "categories")
    ensures "d" !in Rows(Effect(Tables(), Delete("categories", {"c"} + Referencing(Tables(), ParentCategory(), {"c"}))),
                         "categories")
    ensures !EveryStepKeeps(Tables(), Keys(), Statements(Tables(), Keys(), DeleteSet(), DeleteOrder()))
  {
    AccountIsFound(lower);
    IsLeast();
    CanBePlanned();
    Referred();
    ScopeIds();
    CascadeDeletesStray(Tables(), ParentCategory(), {"c"}, "d");
    LastShopIsStray(Tables(), Keys(), Purging(), DeleteSet(), LastShop(), "bob", "s");
    PlanKeepsIntegrity(Tables(), Keys(), DeleteSet(), DeleteOrder());
  }
}
