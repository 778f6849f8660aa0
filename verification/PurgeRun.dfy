/** The purge itself: null the links of retained tables, then delete the scope children first. */
module PurgeRun {
  import opened Sorting
  import opened PurgeSchema
  import opened PurgeRoots
  import opened PurgeScope
  import opened PurgeOrder

  datatype PurgeError =
    | RootFailure(root: RootError)
    | ScopeFailure(scope: ScopeError)
    | NotNullable(keys: seq<ForeignKey>)
    | OrderFailure(order: OrderError)
    | TooManyRows(rows: nat)
    | StatementFailed
    | UserSurvived

  datatype Report = Report(roots: Roots, totalRows: nat, deletePlan: seq<Table>, retained: seq<ForeignKey>)

  datatype Outcome = NotFound | DryRun(report: Report) | Applied(report: Report) | Failed(error: PurgeError)

  /** The keys of retained tables with at least one row that refers to the scope. */
  function RetainPlan(db: Db, fks: seq<ForeignKey>, scope: Scope): (r: seq<ForeignKey>)
    ensures forall fk :: fk in r <==>
      fk in fks && fk.childTable in RETAIN && Referencing(db, fk, Ids(scope, fk.parentTable)) != {}
  {
    if fks == [] then []
    else
      var fk := fks[0];
      (if fk.childTable in RETAIN && Referencing(db, fk, Ids(scope, fk.parentTable)) != {} then [fk] else [])
      + RetainPlan(db, fks[1..], scope)
  }

  function NotNull(plan: seq<ForeignKey>): (r: seq<ForeignKey>)
    ensures forall fk :: fk in r <==> fk in plan && fk.childNotNull
  {
    if plan == [] then []
    else (if plan[0].childNotNull then [plan[0]] else []) + NotNull(plan[1..])
  }

  /** A key of a retained table with a row that points into the scope. */
  ghost predicate MustBeNulled(db: Db, fk: ForeignKey, scope: Scope) {
    && fk.childTable in {"audit_logs", "policy_decisions", "meta_data_deletion_requests"}
    && exists id, v :: Points(db, fk, id, v, scope)
  }

  /** The plan lists such keys, in their order. */
  lemma {:induction false} RetainPlanIs(db: Db, fks: seq<ForeignKey>, scope: Scope, fk: ForeignKey)
    ensures RetainPlan(db, fks + [fk], scope) ==
            RetainPlan(db, fks, scope) + if MustBeNulled(db, fk, scope) then [fk] else []
    ensures RetainPlan(db, [], scope) == []
  {
    RetainPlanJoins(db, fks, [fk], scope);
    OneKeyPlan(db, fk, scope);
  }

  lemma {:induction false} RetainPlanJoins(db: Db, a: seq<ForeignKey>, b: seq<ForeignKey>, scope: Scope)
    ensures RetainPlan(db, a + b, scope) == RetainPlan(db, a, scope) + RetainPlan(db, b, scope)
  {
    if a == [] {
      assert a + b == b;
    } else {
      RetainPlanJoins(db, a[1..], b, scope);
      RetainPlanHead(db, a, scope);
      RetainPlanHead(db, a + b, scope);
      JoinStep(s => RetainPlan(db, s, scope), a, b);
    }
  }

  lemma {:induction false} JoinStep(plan: seq<ForeignKey> -> seq<ForeignKey>, a: seq<ForeignKey>, b: seq<ForeignKey>)
    requires a != [] && plan(a) == plan([a[0]]) + plan(a[1..])
    requires plan(a + b) == plan([(a + b)[0]]) + plan((a + b)[1..])
    requires plan(a[1..] + b) == plan(a[1..]) + plan(b)
    ensures plan(a + b) == plan(a) + plan(b)
  {
    assert (a + b)[0] == a[0] && (a + b)[1..] == a[1..] + b;
  }

  lemma {:induction false} RetainPlanHead(db: Db, fks: seq<ForeignKey>, scope: Scope)
    requires fks != []
    ensures RetainPlan(db, fks, scope) == RetainPlan(db, [fks[0]], scope) + RetainPlan(db, fks[1..], scope)
  {
    assert [fks[0]][1..] == [];
  }

  lemma {:induction false} OneKeyPlan(db: Db, fk: ForeignKey, scope: Scope)
    ensures RetainPlan(db, [fk], scope) == if MustBeNulled(db, fk, scope) then [fk] else []
  {
    RefersMeans(db, fk, scope);
    assert [fk][1..] == [];
  }

  lemma {:induction false} RefersMeans(db: Db, fk: ForeignKey, scope: Scope)
    ensures Referencing(db, fk, Ids(scope, fk.parentTable)) != {} <==> exists id, v :: Points(db, fk, id, v, scope)
  {
    var ids := Ids(scope, fk.parentTable);
    if id :| id in Referencing(db, fk, ids) {
      ReferencingMeans(db, fk, ids, id);
      var v :| v in ids && Holds(db, fk.childTable, id, fk.childColumn, v);
      assert Points(db, fk, id, v, scope);
    }
    if id, v :| Points(db, fk, id, v, scope) { ReferencingMeans(db, fk, ids, id); }
  }

  lemma {:induction false} NotNullIs(plan: seq<ForeignKey>, fk: ForeignKey)
    ensures NotNull(plan + [fk]) == NotNull(plan) + if fk.childNotNull then [fk] else []
    ensures NotNull([]) == []
  {
    if plan == [] {
      assert plan + [fk] == [fk] && [fk][1..] == [];
    } else {
      assert (plan + [fk])[1..] == plan[1..] + [fk];
      NotNullIs(plan[1..], fk);
    }
  }

  function Populated(scope: Scope): (r: set<Table>)
    ensures forall t :: t in r <==> Ids(scope, t) != {}
  {
    set t | t in scope && scope[t] != {}
  }

  function Nulls(plan: seq<ForeignKey>, scope: Scope): seq<Statement> {
    if plan == [] then []
    else [SetNull(plan[0].childTable, plan[0].childColumn, Ids(scope, plan[0].parentTable))] + Nulls(plan[1..], scope)
  }

  function Deletes(order: seq<Table>, scope: Scope): seq<Statement> {
    if order == [] then [] else [Delete(order[0], Ids(scope, order[0]))] + Deletes(order[1..], scope)
  }

  function TotalRows(order: seq<Table>, scope: Scope): nat {
    if order == [] then 0 else |Ids(scope, order[0])| + TotalRows(order[1..], scope)
  }

  /** A key of a root-only table, or of a table's reference to itself. */
  ghost predicate Unhandled(fk: ForeignKey) {
    fk.childTable in {"users", "shops", "tenants"} || fk.childTable == fk.parentTable
  }

  /** A row refers to a row of the scope. */
  ghost predicate Points(db: Db, fk: ForeignKey, id: Id, v: Id, scope: Scope) {
    Holds(db, fk.childTable, id, fk.childColumn, v) && v in Ids(scope, fk.parentTable)
  }

  /**
   No row outside the scope keeps a link into it that neither expansion nor nulling handles: one in a
   root-only table, or one reached only by its table's reference to itself. A query can check this
   before the run.
   */
  ghost predicate NoStrays(db: Db, fks: seq<ForeignKey>, scope: Scope) {
    forall fk, id, v | fk in fks && Unhandled(fk) && Points(db, fk, id, v, scope) :: id in Ids(scope, fk.childTable)
  }

  /** `shops.tenant_id -> tenants`, which root resolution keeps free of strays. */
  ghost predicate OwnerKey(fk: ForeignKey) {
    fk.childTable == "shops" && fk.childColumn == "tenant_id" && fk.parentTable == "tenants"
  }

  /** No strays, not looking at the key of which `OwnersAreNoStrays` shows that it has none. */
  ghost predicate NoOtherStrays(db: Db, fks: seq<ForeignKey>, scope: Scope) {
    forall fk, id, v | fk in fks && Unhandled(fk) && !OwnerKey(fk) && Points(db, fk, id, v, scope) ::
      id in Ids(scope, fk.childTable)
  }

  /** What the script has established when it starts to write. */
  ghost predicate PlanReady(db: Db, fks: seq<ForeignKey>, scope: Scope, order: seq<Table>) {
    && Integrity(db, fks) && ConsistentNullability(fks)
    && Closed(db, fks, scope) && RetainedAbsent(scope)
    && (forall fk | fk in RetainPlan(db, fks, scope) :: !fk.childNotNull)
    && Lists(order, Populated(scope)) && ChildrenFirst(Edges(Populated(scope), fks), order)
  }

  // ---------------------------------------------------------------- states of the run

  ghost predicate LinkNulled(t: Table, c: Column, v: Id, nulled: seq<ForeignKey>, scope: Scope) {
    exists fk :: fk in nulled && fk.childTable == t && fk.childColumn == c && v in Ids(scope, fk.parentTable)
  }

  ghost function Kept(t: Table, row: Row, nulled: seq<ForeignKey>, scope: Scope): Row {
    map c | c in row && !LinkNulled(t, c, row[c], nulled, scope) :: row[c]
  }

  /** The database with the links of `nulled` dropped and the scope of the tables `gone` deleted. */
  ghost function Remaining(db: Db, scope: Scope, nulled: seq<ForeignKey>, gone: set<Table>): Db {
    map t | t in db :: RemainingRows(db, t, scope, nulled, t in gone)
  }

  ghost function RemainingRows(db: Db, t: Table, scope: Scope, nulled: seq<ForeignKey>, gone: bool): map<Id, Row>
    requires t in db
  {
    map id | id in db[t] && !(gone && id in Ids(scope, t)) :: Kept(t, db[t][id], nulled, scope)
  }

  lemma {:induction false} NothingDone(db: Db, scope: Scope)
    ensures Remaining(db, scope, [], {}) == db
  {
    forall t | t in db ensures RemainingRows(db, t, scope, [], false) == db[t] {
      forall id | id in db[t] ensures Kept(t, db[t][id], [], scope) == db[t][id] {}
    }
  }

  lemma {:induction false} NullStep(db: Db, scope: Scope, nulled: seq<ForeignKey>, fk: ForeignKey)
    ensures Effect(Remaining(db, scope, nulled, {}), SetNull(fk.childTable, fk.childColumn, Ids(scope, fk.parentTable)))
            == Remaining(db, scope, nulled + [fk], {})
  {
    var t := fk.childTable;
    var now := Remaining(db, scope, nulled, {});
    var next := Remaining(db, scope, nulled + [fk], {});
    forall u | u in db && u != t ensures now[u] == next[u] {
      forall id | id in db[u] ensures now[u][id] == next[u][id] {
        KeptElsewhere(u, db[u][id], nulled, fk, scope);
      }
    }
    if t in db {
      forall id | id in db[t]
        ensures next[t][id] ==
          if Refers(now[t][id], fk.childColumn, Ids(scope, fk.parentTable)) then WithNull(now[t][id], fk.childColumn)
          else now[t][id]
      {
        KeptOneMore(t, db[t][id], nulled, fk, scope);
      }
      var effect := Effect(now, SetNull(t, fk.childColumn, Ids(scope, fk.parentTable)));
      assert effect[t] == next[t];
      assert forall u | u in db :: effect[u] == next[u];
    }
  }

  lemma {:induction false} KeptElsewhere(t: Table, row: Row, nulled: seq<ForeignKey>, fk: ForeignKey, scope: Scope)
    requires fk.childTable != t
    ensures Kept(t, row, nulled + [fk], scope) == Kept(t, row, nulled, scope)
  {}

  lemma {:induction false} KeptOneMore(t: Table, row: Row, nulled: seq<ForeignKey>, fk: ForeignKey, scope: Scope)
    requires fk.childTable == t
    ensures var kept := Kept(t, row, nulled, scope);
      Kept(t, row, nulled + [fk], scope) ==
        if Refers(kept, fk.childColumn, Ids(scope, fk.parentTable)) then WithNull(kept, fk.childColumn) else kept
  {}

  lemma {:induction false} DeleteStep(db: Db, scope: Scope, nulled: seq<ForeignKey>, gone: set<Table>, t: Table)
    ensures Effect(Remaining(db, scope, nulled, gone), Delete(t, Ids(scope, t)))
         == Remaining(db, scope, nulled, gone + {t})
  {
    var now := Remaining(db, scope, nulled, gone);
    if t in db {
      assert now[t] - Ids(scope, t) == RemainingRows(db, t, scope, nulled, true);
    }
  }

  // ---------------------------------------------------------------- integrity of every state

  /** Links into a deleted table have been dealt with: all nulled, or their tables deleted first. */
  ghost predicate InStep(db: Db, fks: seq<ForeignKey>, scope: Scope, nulled: seq<ForeignKey>, gone: set<Table>) {
    && (forall fk | fk in nulled :: fk in RetainPlan(db, fks, scope))
    && (gone != {} ==> forall fk | fk in RetainPlan(db, fks, scope) :: fk in nulled)
    && gone <= Populated(scope)
    && forall e | e in Edges(Populated(scope), fks) && e.0 in gone :: e.1 in gone
  }

  /** When a parent's rows are deleted, a link to them has been nulled or its own row deleted. */
  lemma {:induction false} LinkIsHandled(
      db: Db, fks: seq<ForeignKey>, scope: Scope, order: seq<Table>, nulled: seq<ForeignKey>, gone: set<Table>,
      fk: ForeignKey, id: Id)
    requires PlanReady(db, fks, scope, order) && NoStrays(db, fks, scope)
    requires InStep(db, fks, scope, nulled, gone) && fk in fks && fk.parentTable in gone
    requires id in Referencing(db, fk, Ids(scope, fk.parentTable))
    ensures if fk.childTable in RETAIN
            then LinkNulled(fk.childTable, fk.childColumn, db[fk.childTable][id][fk.childColumn], nulled, scope)
            else fk.childTable in gone && id in Ids(scope, fk.childTable)
  {
    assert Points(db, fk, id, db[fk.childTable][id][fk.childColumn], scope);
    if fk.childTable !in RETAIN && !Unhandled(fk) { assert Expandable(fk) && ClosedFor(db, fk, scope); }
  }

  lemma {:induction false} RemainingKeepsKey(
      db: Db, fks: seq<ForeignKey>, scope: Scope, order: seq<Table>, nulled: seq<ForeignKey>, gone: set<Table>,
      fk: ForeignKey, id: Id)
    requires PlanReady(db, fks, scope, order) && NoStrays(db, fks, scope)
    requires InStep(db, fks, scope, nulled, gone) && fk in fks
    requires id in Rows(Remaining(db, scope, nulled, gone), fk.childTable)
    requires fk.childColumn in Rows(Remaining(db, scope, nulled, gone), fk.childTable)[id]
    ensures var rest := Remaining(db, scope, nulled, gone);
            Rows(rest, fk.childTable)[id][fk.childColumn] in Rows(rest, fk.parentTable)
  {
    var row := db[fk.childTable][id];
    var v := row[fk.childColumn];
    assert Satisfied(db, fk) && id in Rows(db, fk.childTable);
    assert v in Rows(db, fk.parentTable);
    if fk.parentTable in gone && v in Ids(scope, fk.parentTable) {
      LinkIsHandled(db, fks, scope, order, nulled, gone, fk, id);
    }
  }

  lemma {:induction false} RemainingKeeps(
      db: Db, fks: seq<ForeignKey>, scope: Scope, order: seq<Table>, nulled: seq<ForeignKey>, gone: set<Table>)
    requires PlanReady(db, fks, scope, order) && (NoStrays(db, fks, scope) || gone == {})
    requires InStep(db, fks, scope, nulled, gone)
    ensures Integrity(Remaining(db, scope, nulled, gone), fks)
  {
    var rest := Remaining(db, scope, nulled, gone);
    forall fk, id | fk in fks && id in Rows(rest, fk.childTable)
      ensures fk.childColumn in Rows(rest, fk.childTable)[id] ==>
                Rows(rest, fk.childTable)[id][fk.childColumn] in Rows(rest, fk.parentTable)
      ensures fk.childNotNull ==> fk.childColumn in Rows(rest, fk.childTable)[id]
    {
      assert Satisfied(db, fk) && id in Rows(db, fk.childTable);
      var row := Rows(db, fk.childTable)[id];
      if fk.childColumn in Rows(rest, fk.childTable)[id] {
        if gone == {} {
          assert row[fk.childColumn] in Rows(db, fk.parentTable);
        } else {
          RemainingKeepsKey(db, fks, scope, order, nulled, gone, fk, id);
        }
      }
      if fk.childNotNull {
        assert fk.childColumn in row;
        assert forall g | g in nulled :: !g.childNotNull && g in fks;
      }
    }
  }

  /** After the run, a row outside the scope that still points into it has lost its parent. */
  lemma {:induction false} StrayBreaksIntegrity(db: Db, fks: seq<ForeignKey>, scope: Scope, order: seq<Table>)
    requires PlanReady(db, fks, scope, order)
    requires Integrity(Remaining(db, scope, RetainPlan(db, fks, scope), Populated(scope)), fks)
    ensures NoStrays(db, fks, scope)
  {
    var plan := RetainPlan(db, fks, scope);
    var rest := Remaining(db, scope, plan, Populated(scope));
    forall fk, id, v | fk in fks && Unhandled(fk) && Points(db, fk, id, v, scope)
      ensures id in Ids(scope, fk.childTable)
    {
      assert Satisfied(rest, fk);
      if id !in Ids(scope, fk.childTable) {
        StrayDangles(db, fks, scope, order, fk, id);
      }
    }
  }

  lemma {:induction false} StrayDangles(
      db: Db, fks: seq<ForeignKey>, scope: Scope, order: seq<Table>, fk: ForeignKey, id: Id)
    requires PlanReady(db, fks, scope, order) && fk in fks && fk.childTable !in RETAIN
    requires id in Referencing(db, fk, Ids(scope, fk.parentTable)) && id !in Ids(scope, fk.childTable)
    ensures var rest := Remaining(db, scope, RetainPlan(db, fks, scope), Populated(scope));
      && id in Rows(rest, fk.childTable) && fk.childColumn in Rows(rest, fk.childTable)[id]
      && Rows(rest, fk.childTable)[id][fk.childColumn] !in Rows(rest, fk.parentTable)
  {}

  // ---------------------------------------------------------------- the whole run

  lemma {:induction false} NullsFrom(plan: seq<ForeignKey>, k: nat, scope: Scope)
    requires k < |plan|
    ensures Nulls(plan[k..], scope) ==
            [SetNull(plan[k].childTable, plan[k].childColumn, Ids(scope, plan[k].parentTable))]
            + Nulls(plan[k + 1..], scope)
  {
    assert plan[k..][0] == plan[k] && plan[k..][1..] == plan[k + 1..];
  }

  lemma {:induction false} RunCons(db: Db, fks: seq<ForeignKey>, st: Statement, rest: seq<Statement>)
    ensures Run(db, [st] + rest) == Run(Effect(db, st), rest)
    ensures EveryStepKeeps(db, fks, [st] + rest) <==>
            Integrity(Effect(db, st), fks) && EveryStepKeeps(Effect(db, st), fks, rest)
  {
    assert ([st] + rest)[1..] == rest;
  }

  lemma {:induction false} RunNulls(db: Db, fks: seq<ForeignKey>, scope: Scope, order: seq<Table>, k: nat)
    requires PlanReady(db, fks, scope, order) && k <= |RetainPlan(db, fks, scope)|
    ensures var plan := RetainPlan(db, fks, scope);
      && Run(Remaining(db, scope, plan[..k], {}), Nulls(plan[k..], scope)) == Remaining(db, scope, plan, {})
      && EveryStepKeeps(Remaining(db, scope, plan[..k], {}), fks, Nulls(plan[k..], scope))
    decreases |RetainPlan(db, fks, scope)| - k
  {
    var plan := RetainPlan(db, fks, scope);
    if k == |plan| {
      assert plan[..k] == plan;
    } else {
      var fk := plan[k];
      assert plan[..k] + [fk] == plan[..k + 1];
      NullStep(db, scope, plan[..k], fk);
      RemainingKeeps(db, fks, scope, order, plan[..k + 1], {});
      RunNulls(db, fks, scope, order, k + 1);
      NullsFrom(plan, k, scope);
      RunCons(Remaining(db, scope, plan[..k], {}), fks,
              SetNull(fk.childTable, fk.childColumn, Ids(scope, fk.parentTable)), Nulls(plan[k + 1..], scope));
    }
  }

  lemma {:induction false} RunDeletes(db: Db, fks: seq<ForeignKey>, scope: Scope, order: seq<Table>, k: nat)
    requires PlanReady(db, fks, scope, order) && k <= |order|
    ensures var plan := RetainPlan(db, fks, scope);
      && Run(Remaining(db, scope, plan, Elements(order[..k])), Deletes(order[k..], scope))
           == Remaining(db, scope, plan, Populated(scope))
      && (NoStrays(db, fks, scope) ==>
            EveryStepKeeps(Remaining(db, scope, plan, Elements(order[..k])), fks, Deletes(order[k..], scope)))
    decreases |order| - k
  {
    var plan := RetainPlan(db, fks, scope);
    if k == |order| {
      assert Elements(order[..k]) == Populated(scope);
    } else {
      var t := order[k];
      assert order[k..][0] == t && order[k..][1..] == order[k + 1..];
      assert Elements(order[..k]) + {t} == Elements(order[..k + 1]);
      DeleteStep(db, scope, plan, Elements(order[..k]), t);
      if NoStrays(db, fks, scope) {
        PrefixInStep(db, fks, scope, order, k + 1);
        RemainingKeeps(db, fks, scope, order, plan, Elements(order[..k + 1]));
      }
      RunDeletes(db, fks, scope, order, k + 1);
    }
  }

  lemma {:induction false} PrefixInStep(db: Db, fks: seq<ForeignKey>, scope: Scope, order: seq<Table>, k: nat)
    requires PlanReady(db, fks, scope, order) && k <= |order|
    ensures InStep(db, fks, scope, RetainPlan(db, fks, scope), Elements(order[..k]))
  {}

  lemma {:induction false} RunAppend(db: Db, fks: seq<ForeignKey>, a: seq<Statement>, b: seq<Statement>)
    ensures Run(db, a + b) == Run(Run(db, a), b)
    ensures EveryStepKeeps(db, fks, a + b) <==> EveryStepKeeps(db, fks, a) && EveryStepKeeps(Run(db, a), fks, b)
  {
    if a == [] {
      assert a + b == b;
    } else {
      assert (a + b)[0] == a[0] && (a + b)[1..] == a[1..] + b;
      RunAppend(Effect(db, a[0]), fks, a[1..], b);
    }
  }

  lemma {:induction false} LastStateKeeps(db: Db, fks: seq<ForeignKey>, sts: seq<Statement>)
    requires EveryStepKeeps(db, fks, sts) && Integrity(db, fks)
    ensures Integrity(Run(db, sts), fks)
  {
    if sts != [] { LastStateKeeps(Effect(db, sts[0]), fks, sts[1..]); }
  }

  /** The database the purge is meant to leave: the scope gone, retained links into it dropped. */
  ghost function Purged(db: Db, fks: seq<ForeignKey>, scope: Scope): Db {
    Remaining(db, scope, RetainPlan(db, fks, scope), Populated(scope))
  }

  function Statements(db: Db, fks: seq<ForeignKey>, scope: Scope, order: seq<Table>): seq<Statement> {
    Nulls(RetainPlan(db, fks, scope), scope) + Deletes(order, scope)
  }

  /** The plan runs with every constraint satisfied after each statement exactly when there are no strays. */
  lemma {:induction false} PlanKeepsIntegrity(db: Db, fks: seq<ForeignKey>, scope: Scope, order: seq<Table>)
    requires PlanReady(db, fks, scope, order)
    ensures Run(db, Statements(db, fks, scope, order)) == Purged(db, fks, scope)
    ensures EveryStepKeeps(db, fks, Statements(db, fks, scope, order)) <==> NoStrays(db, fks, scope)
  {
    var plan := RetainPlan(db, fks, scope);
    NothingDone(db, scope);
    RunNulls(db, fks, scope, order, 0);
    RunDeletes(db, fks, scope, order, 0);
    assert plan[..0] == [] && plan[0..] == plan && order[0..] == order && Elements(order[..0]) == {};
    RunAppend(db, fks, Nulls(plan, scope), Deletes(order, scope));
    if EveryStepKeeps(db, fks, Statements(db, fks, scope, order)) {
      LastStateKeeps(db, fks, Statements(db, fks, scope, order));
      StrayBreaksIntegrity(db, fks, scope, order);
    }
  }

  /** Row by row: exactly the scope is gone, and nothing else changed except retained links into it. */
  lemma {:induction false} PurgedRow(db: Db, fks: seq<ForeignKey>, scope: Scope, t: Table, id: Id)
    requires RetainedAbsent(scope)
    ensures id in Rows(Purged(db, fks, scope), t) <==> id in Rows(db, t) && id !in Ids(scope, t)
    ensures id in Rows(Purged(db, fks, scope), t) ==>
      var before, after := Rows(db, t)[id], Rows(Purged(db, fks, scope), t)[id];
      var retained := t in {"audit_logs", "policy_decisions", "meta_data_deletion_requests"};
      && (!retained ==> after == before)
      && (forall c :: c in after <==> c in before && !(retained && LinkNulled(t, c, before[c], fks, scope)))
      && (forall c | c in after :: after[c] == before[c])
  {}

  lemma {:induction false} ScopeIsStored(db: Db, fks: seq<ForeignKey>, roots: Roots, scope: Scope)
    requires LeastScope(db, fks, roots, scope) && forall u, id | id in Ids(Start(roots), u) :: id in Rows(db, u)
    ensures forall t :: Ids(scope, t) <= Rows(db, t).Keys
  {
    var stored := map u | u in scope :: set id | id in scope[u] && id in Rows(db, u);
    forall u ensures Ids(Start(roots), u) <= Ids(stored, u) {
      assert Ids(Start(roots), u) <= Ids(scope, u);
    }
    forall fk | fk in fks && Expandable(fk) ensures ClosedFor(db, fk, stored) {
      assert ClosedFor(db, fk, scope);
      assert Ids(stored, fk.parentTable) <= Ids(scope, fk.parentTable);
    }
    assert Closed(db, fks, stored) && Included(scope, stored);
    forall t ensures Ids(scope, t) <= Rows(db, t).Keys {
      assert Ids(scope, t) <= Ids(stored, t);
    }
  }

  /** Every identifier of the delete set is a stored row, so the report counts what is deleted. */
  lemma {:induction false} ReportedRowsAreDeleted(
      db: Db, fks: seq<ForeignKey>, lower: string -> string, email: string, roots: Roots, scope: Scope, t: Table)
    requires Integrity(db, fks) && RootKeys(fks) && RootsFound(db, lower, email, roots)
    requires LeastScope(db, fks, roots, scope) && RootsFixed(roots, scope)
    ensures Ids(scope, t) <= Rows(db, t).Keys
    ensures |Rows(db, t)| == |Rows(Purged(db, fks, scope), t)| + |Ids(scope, t)|
  {
    RootsAreStored(db, fks, lower, email, roots);
    ScopeIsStored(db, fks, roots, scope);
    PurgedSize(db, fks, scope, t);
  }

  lemma {:induction false} PurgedSize(db: Db, fks: seq<ForeignKey>, scope: Scope, t: Table)
    requires RetainedAbsent(scope)
    requires Ids(scope, t) <= Rows(db, t).Keys
    ensures |Rows(db, t)| == |Rows(Purged(db, fks, scope), t)| + |Ids(scope, t)|
  {
    var after := Rows(Purged(db, fks, scope), t);
    PurgedKeys(db, fks, scope, t);
    SizeOfRest(Rows(db, t).Keys, Ids(scope, t));
    assert |after| == |after.Keys| && |Rows(db, t)| == |Rows(db, t).Keys|;
  }

  lemma {:induction false} PurgedKeys(db: Db, fks: seq<ForeignKey>, scope: Scope, t: Table)
    requires RetainedAbsent(scope)
    ensures Rows(Purged(db, fks, scope), t).Keys == Rows(db, t).Keys - Ids(scope, t)
  {
    forall id ensures id in Rows(Purged(db, fks, scope), t) <==> id in Rows(db, t).Keys - Ids(scope, t) {
      PurgedRow(db, fks, scope, t, id);
    }
  }

  lemma {:induction false} SizeOfRest(all: set<Id>, part: set<Id>)
    requires part <= all
    ensures |all| == |all - part| + |part|
  {}

  /** Under a root tenant every shop is a root shop, so that key has no strays. */
  lemma {:induction false} NoStrayShops(db: Db, roots: Roots, scope: Scope, fk: ForeignKey, shop: Id, tenant: Id)
    requires forall t | t in roots.tenantIds :: OwnsWholly(db, t, roots.shopIds)
    requires RootsFixed(roots, scope) && OwnerKey(fk) && Points(db, fk, shop, tenant, scope)
    ensures shop in Ids(scope, "shops")
  {
    assert tenant in RootIds(roots, "tenants");
    assert OwnsWholly(db, tenant, roots.shopIds);
  }

  /** For resolved roots, strays can come only by the other keys. */
  lemma {:induction false} OwnersAreNoStrays(
      db: Db, fks: seq<ForeignKey>, lower: string -> string, email: string, roots: Roots, scope: Scope)
    requires RootsFound(db, lower, email, roots) && RootsFixed(roots, scope)
    ensures NoStrays(db, fks, scope) <==> NoOtherStrays(db, fks, scope)
  {
    forall fk, id, v | fk in fks && OwnerKey(fk) && Points(db, fk, id, v, scope)
      ensures id in Ids(scope, fk.childTable)
    {
      NoStrayShops(db, roots, scope, fk, id, v);
    }
  }

  /** Another user whose last shop is one of the account's is a stray: its key has a root-only child. */
  lemma {:induction false} LastShopIsStray(
      db: Db, fks: seq<ForeignKey>, roots: Roots, scope: Scope, fk: ForeignKey, user: Id, shop: Id)
    requires RootsFixed(roots, scope) && fk in fks
    requires fk.childTable == "users" && fk.childColumn == "last_logged_shop_id" && fk.parentTable == "shops"
    requires Holds(db, "users", user, "last_logged_shop_id", shop) && shop in roots.shopIds && user != roots.userId
    ensures !NoOtherStrays(db, fks, scope) && user !in Ids(scope, "users")
  {
    assert Ids(scope, "shops") == RootIds(roots, "shops") && Ids(scope, "users") == RootIds(roots, "users");
    assert Points(db, fk, user, shop, scope);
  }

  /** With ON DELETE SET NULL the stray row loses its link, though it is outside the scope. */
  lemma {:induction false} SetNullChangesStray(db: Db, fk: ForeignKey, ids: set<Id>, stray: Id)
    requires stray in Referencing(db, fk, ids) && (fk.childTable != fk.parentTable || stray !in ids)
    ensures var reacted := Effect(Effect(db, SetNull(fk.childTable, fk.childColumn, ids)), Delete(fk.parentTable, ids));
      && stray in Rows(reacted, fk.childTable)
      && fk.childColumn in Rows(db, fk.childTable)[stray]
      && fk.childColumn !in Rows(reacted, fk.childTable)[stray]
  {}

  /** With ON DELETE CASCADE on a table's reference to itself the stray row goes too, outside the scope as it is. */
  lemma {:induction false} CascadeDeletesStray(db: Db, fk: ForeignKey, ids: set<Id>, stray: Id)
    requires fk.childTable == fk.parentTable && stray in Referencing(db, fk, ids) && stray !in ids
    ensures var reacted := Effect(db, Delete(fk.parentTable, ids + Referencing(db, fk, ids)));
      stray in Rows(db, fk.childTable) && stray !in Rows(reacted, fk.childTable)
  {}

  // ---------------------------------------------------------------- the size of the delete set

  /** The rows of the delete set in some tables, as pairs. */
  ghost function RowsIn(scope: Scope, tables: set<Table>): set<(Table, Id)> {
    set t, id | t in tables && id in Ids(scope, t) :: (t, id)
  }

  ghost function Tagged(t: Table, ids: set<Id>): set<(Table, Id)> {
    set id | id in ids :: (t, id)
  }

  lemma {:induction false} TaggedSize(t: Table, ids: set<Id>)
    ensures |Tagged(t, ids)| == |ids|
  {
    if ids != {} {
      var id :| id in ids;
      TaggedSize(t, ids - {id});
      assert Tagged(t, ids) == Tagged(t, ids - {id}) + {(t, id)};
    }
  }

  /** The total the script reports is the number of rows in the delete set, in whatever order it is added up. */
  lemma {:induction false} TotalIsSize(order: seq<Table>, scope: Scope)
    requires Distinct(order)
    ensures TotalRows(order, scope) == |RowsIn(scope, Elements(order))|
    decreases |order|
  {
    if order != [] {
      TotalIsSize(order[1..], scope);
      assert order == [order[0]] + order[1..];
      assert Elements(order) == {order[0]} + Elements(order[1..]);
      OneMoreTable(scope, order[0], Elements(order[1..]));
    }
  }

  lemma {:induction false} OneMoreTable(scope: Scope, t: Table, tables: set<Table>)
    requires t !in tables
    ensures |RowsIn(scope, {t} + tables)| == |Ids(scope, t)| + |RowsIn(scope, tables)|
  {
    var tagged, rest := Tagged(t, Ids(scope, t)), RowsIn(scope, tables);
    TaggedSize(t, Ids(scope, t));
    forall p ensures p in RowsIn(scope, {t} + tables) <==> p in tagged + rest {
      RowIsIn(scope, {t} + tables, p);
      RowIsIn(scope, tables, p);
      assert p in tagged <==> p.0 == t && p.1 in Ids(scope, t);
    }
    forall p | p in tagged ensures p !in rest { RowIsIn(scope, tables, p); }
    assert RowsIn(scope, {t} + tables) == tagged + rest && tagged !! rest;
  }

  lemma {:induction false} RowIsIn(scope: Scope, tables: set<Table>, p: (Table, Id))
    ensures p in RowsIn(scope, tables) <==> p.0 in tables && p.1 in Ids(scope, p.0)
  {
    assert p == (p.0, p.1);
  }

  /** Delete sets with the same identifiers give the same plan. */
  lemma {:induction false} SamePlan(db: Db, fks: seq<ForeignKey>, s: Scope, s': Scope)
    requires SameIds(s, s')
    ensures RetainPlan(db, fks, s) == RetainPlan(db, fks, s')
    decreases |fks|
  {
    if fks != [] {
      assert Ids(s, fks[0].parentTable) == Ids(s', fks[0].parentTable);
      SamePlan(db, fks[1..], s, s');
    }
  }

  lemma {:induction false} SameTables(db: Db, fks: seq<ForeignKey>, s: Scope, s': Scope)
    requires SameIds(s, s')
    ensures Populated(s) == Populated(s') && RowsIn(s, Populated(s)) == RowsIn(s', Populated(s'))
    ensures NoOtherStrays(db, fks, s) <==> NoOtherStrays(db, fks, s')
  {
    forall t ensures t in Populated(s) <==> t in Populated(s') {
      assert Ids(s, t) == Ids(s', t);
    }
    forall fk | fk in fks
      ensures Ids(s, fk.parentTable) == Ids(s', fk.parentTable) && Ids(s, fk.childTable) == Ids(s', fk.childTable)
      ensures forall id, v :: Points(db, fk, id, v, s) <==> Points(db, fk, id, v, s')
    {}
  }

  /** The account's user row is gone, so without strays the last check before COMMIT passes. */
  lemma {:induction false} UserIsGone(
      db: Db, fks: seq<ForeignKey>, scope: Scope, lower: string -> string, email: string)
    requires RetainedAbsent(scope)
    requires forall u | HasAddress(db, lower, email, u) :: u in Ids(scope, "users")
    ensures NoAddress(Purged(db, fks, scope), lower, email)
  {
    var after := Purged(db, fks, scope);
    forall u, stored | Holds(after, "users", u, "email", stored) ensures lower(stored) != lower(email) {
      PurgedRow(db, fks, scope, "users", u);
      assert Holds(db, "users", u, "email", stored);
    }
  }
}
