/** The script's `main`: resolve, plan, refuse or report, and apply in one transaction. */
module PurgeMain {
  import opened Wrappers
  import opened JsNumbers
  import opened Sorting
  import opened PurgeSchema
  import opened PurgeRoots
  import opened PurgeScope
  import opened PurgeOrder
  import opened PurgeRun

  /** Lists the tables of a set, in any order. */
  method ListTables(tables: set<Table>) returns (s: seq<Table>)
    ensures Elements(s) == tables
  {
    var todo := tables;
    s := [];
    while todo != {}
      invariant todo <= tables && Elements(s) == tables - todo
      decreases todo
    {
      var t :| t in todo;
      assert Elements(s + [t]) == Elements(s) + {t};
      s, todo := s + [t], todo - {t};
    }
  }

  /** `totalRows > MAX_ROWS`, where the limit is whatever `Number` made of the environment. */
  predicate Exceeds(rows: nat, limit: Num) {
    Less(limit, Fin(rows as real))
  }

  /** A limit refuses what is larger; it refuses nothing exactly when it is not a number or is infinite. */
  lemma {:induction false} LimitIsOff(limit: Num)
    ensures forall rows: nat :: Exceeds(rows, limit) <==> limit == NegInf || (limit.Fin? && limit.r < rows as real)
    ensures (forall rows: nat :: !Exceeds(rows, limit)) <==> limit in {NaN, PosInf}
  {
    if limit.Fin? {
      var rows: nat := if limit.r < 0.0 then 0 else limit.r.Floor + 1;
      assert Exceeds(rows, limit);
    }
    if limit.NegInf? { assert Exceeds(0, limit); }
  }

  /** The least delete set, all of whose tables can be addressed. */
  ghost predicate Addressable(tables: Db, fks: seq<ForeignKey>, keyed: set<Table>, roots: Roots, scope: Scope) {
    && LeastScope(tables, fks, roots, scope)
    && forall fk | fk in fks && Expandable(fk) && Ids(scope, fk.parentTable) != {} :: fk.childTable in keyed
  }

  /** The least delete set can be found, ordered and emptied: what every refusal says is not so. */
  ghost predicate Plannable(tables: Db, fks: seq<ForeignKey>, keyed: set<Table>, roots: Roots, maxRows: Num,
                            scope: Scope)
  {
    && Addressable(tables, fks, keyed, roots, scope)
    && (forall fk | fk in RetainPlan(tables, fks, scope) :: !fk.childNotNull)
    && !Cyclic(Edges(Populated(scope), fks))
    && !Exceeds(|RowsIn(scope, Populated(scope))|, maxRows)
  }

  /** Why a delete set that was found is refused; no two of the reasons hold at once. */
  ghost predicate ScopeRefusal(tables: Db, fks: seq<ForeignKey>, scope: Scope, maxRows: Num, e: PurgeError) {
    var blocked := NotNull(RetainPlan(tables, fks, scope));
    var edges, size := Edges(Populated(scope), fks), |RowsIn(scope, Populated(scope))|;
    match e
    case NotNullable(keys) => blocked != [] && keys == blocked
    case OrderFailure(order) => blocked == [] && Cyclic(edges) && Deadlocked(fks, Populated(scope), order.among)
    case TooManyRows(n) => blocked == [] && !Cyclic(edges) && n == size && Exceeds(size, maxRows)
    case _ => false
  }

  /** The true cause of each refusal, said of the least delete set. */
  ghost predicate Refusal(tables: Db, fks: seq<ForeignKey>, keyed: set<Table>, roots: Roots, maxRows: Num,
                          e: PurgeError)
  {
    match e
    case ScopeFailure(NotConverged) => !Converges(tables, fks, roots)
    case ScopeFailure(NoPrimaryKey(t)) =>
      exists fk :: KeyMissing(tables, fks, keyed, roots, fk) && fk.childTable == t
    case _ =>
      exists scope ::
        Addressable(tables, fks, keyed, roots, scope) && ScopeRefusal(tables, fks, scope, maxRows, e)
  }

  /** Where the search converges, nothing that can be planned is refused. */
  lemma {:induction false} PlannableIsNotRefused(
      tables: Db, fks: seq<ForeignKey>, keyed: set<Table>, roots: Roots, maxRows: Num,
      scope: Scope, e: PurgeError)
    requires Plannable(tables, fks, keyed, roots, maxRows, scope) && Converges(tables, fks, roots)
    ensures !Refusal(tables, fks, keyed, roots, maxRows, e)
  {
    forall other | LeastScope(tables, fks, roots, other)
      ensures RetainPlan(tables, fks, other) == RetainPlan(tables, fks, scope)
      ensures Populated(other) == Populated(scope)
      ensures RowsIn(other, Populated(other)) == RowsIn(scope, Populated(scope))
    {
      LeastIsUnique(tables, fks, roots, scope, other);
      SamePlan(tables, fks, other, scope);
      SameTables(tables, fks, other, scope);
    }
    forall fk ensures !KeyMissing(tables, fks, keyed, roots, fk) {
      assert Included(Start(roots), scope) && Closed(tables, fks, scope);
    }
    NothingBlocks(RetainPlan(tables, fks, scope));
  }

  lemma {:induction false} NothingBlocks(plan: seq<ForeignKey>)
    requires forall fk | fk in plan :: !fk.childNotNull
    ensures NotNull(plan) == []
  {
    if NotNull(plan) != [] { assert NotNull(plan)[0] in NotNull(plan); }
  }

  /** What the reported plan is of the least delete set. */
  ghost predicate Planned(tables: Db, fks: seq<ForeignKey>, scope: Scope, order: seq<Table>) {
    && PlanReady(tables, fks, scope, order) && TotalRows(order, scope) == |RowsIn(scope, Populated(scope))|
    && exists level :: InWaves(fks, Populated(scope), order, level)
  }

  /** Everything decided before the first write. */
  method Plan(tables: Db, fks: seq<ForeignKey>, keyed: set<Table>, roots: Roots, maxRows: Num)
    returns (r: Result<(Scope, seq<Table>), PurgeError>)
    requires Integrity(tables, fks) && ConsistentNullability(fks)
    ensures r.Ok? ==>
      var (scope, order) := r.value;
      && Plannable(tables, fks, keyed, roots, maxRows, scope) && RootsFixed(roots, scope)
      && Planned(tables, fks, scope, order)
    ensures r.Err? ==> Refusal(tables, fks, keyed, roots, maxRows, r.error)
    ensures Converges(tables, fks, roots) ==>
      forall scope | Plannable(tables, fks, keyed, roots, maxRows, scope) :: r.Ok?
  {
    r := PlanOrRefuse(tables, fks, keyed, roots, maxRows);
    if r.Err? {
      forall scope | Converges(tables, fks, roots) && Plannable(tables, fks, keyed, roots, maxRows, scope)
        ensures false
      {
        PlannableIsNotRefused(tables, fks, keyed, roots, maxRows, scope, r.error);
      }
    }
  }

  method PlanOrRefuse(tables: Db, fks: seq<ForeignKey>, keyed: set<Table>, roots: Roots, maxRows: Num)
    returns (r: Result<(Scope, seq<Table>), PurgeError>)
    requires Integrity(tables, fks) && ConsistentNullability(fks)
    ensures r.Ok? ==>
      var (scope, order) := r.value;
      && Plannable(tables, fks, keyed, roots, maxRows, scope) && RootsFixed(roots, scope)
      && Planned(tables, fks, scope, order)
    ensures r.Err? ==> Refusal(tables, fks, keyed, roots, maxRows, r.error)
  {
    var collected := CollectScope(tables, fks, keyed, roots);
    if collected.Err? { return Err(ScopeFailure(collected.error)); }
    var scope := collected.value;
    assert Addressable(tables, fks, keyed, roots, scope);
    var blocked := NotNull(RetainPlan(tables, fks, scope));
    if |blocked| > 0 {
      assert ScopeRefusal(tables, fks, scope, maxRows, NotNullable(blocked));
      return Err(NotNullable(blocked));
    }
    assert forall fk | fk in RetainPlan(tables, fks, scope) && fk.childNotNull :: fk in blocked;
    r := Arrange(tables, fks, scope, maxRows);
  }

  /** The populated tables children first, or the cycle among them. */
  method OrderTables(tables: set<Table>, fks: seq<ForeignKey>) returns (r: Result<seq<Table>, OrderError>)
    ensures r.Ok? <==> !Cyclic(Edges(tables, fks))
    ensures r.Ok? ==> Lists(r.value, tables) && ChildrenFirst(Edges(tables, fks), r.value)
    ensures Arranged(fks, tables, r)
  {
    var listed := ListTables(tables);
    r := TopologicalOrder(listed, fks);
    RefusedExactlyOnCycle(tables, Edges(tables, fks));
    DeliveredIsArranged(tables, fks, r);
    if r.Ok? { OrderIsTopological(tables, Edges(tables, fks)); }
  }

  /** Ordering the tables and counting the rows. */
  method Arrange(tables: Db, fks: seq<ForeignKey>, scope: Scope, maxRows: Num)
    returns (r: Result<(Scope, seq<Table>), PurgeError>)
    requires Integrity(tables, fks) && ConsistentNullability(fks) && Closed(tables, fks, scope)
    requires RetainedAbsent(scope)
    requires forall fk | fk in RetainPlan(tables, fks, scope) :: !fk.childNotNull
    ensures r.Ok? ==> r.value.0 == scope && Planned(tables, fks, scope, r.value.1)
    ensures r.Ok? <==>
      !Cyclic(Edges(Populated(scope), fks)) && !Exceeds(|RowsIn(scope, Populated(scope))|, maxRows)
    ensures r.Err? ==> ScopeRefusal(tables, fks, scope, maxRows, r.error)
  {
    NothingBlocks(RetainPlan(tables, fks, scope));
    var ordered := OrderTables(Populated(scope), fks);
    if ordered.Err? { return Err(OrderFailure(ordered.error)); }
    var order := ordered.value;
    TotalIsSize(order, scope);
    ListsElements(order, Populated(scope));
    if Exceeds(TotalRows(order, scope), maxRows) {
      return Err(TooManyRows(TotalRows(order, scope)));
    }
    r := Ok((scope, order));
  }

  lemma {:induction false} ListsElements(order: seq<Table>, tables: set<Table>)
    requires Lists(order, tables)
    ensures Elements(order) == tables
  {}

  /** The committed state: the user gone, and the purged database if and only if there was no stray. */
  ghost predicate Committed(start: Db, now: Db, fks: seq<ForeignKey>, scope: Scope, strays: bool, fired: bool,
                            lower: string -> string, email: string)
  {
    NoAddress(now, lower, email) && fired == strays && (!fired ==> now == Purged(start, fks, scope))
  }

  /** The transaction: all statements, the last check, and COMMIT or ROLLBACK. */
  method Apply(db: Connection, lower: string -> string, email: string, scope: Scope, order: seq<Table>)
    returns (error: Option<PurgeError>)
    requires PlanReady(db.tables, db.fks, scope, order) && !db.fired
    requires forall u | HasAddress(db.tables, lower, email, u) :: u in Ids(scope, "users")
    modifies db`tables, db`trail, db`fired
    ensures error.None? ==>
      Committed(old(db.tables), db.tables, db.fks, scope, !NoStrays(old(db.tables), db.fks, scope), db.fired, lower,
                email)
    ensures error.None? && db.fired ==> exists before, st :: db.react(before, st).Some?
    ensures error.Some? ==> db.tables == old(db.tables) && !NoStrays(old(db.tables), db.fks, scope)
    ensures error.Some? ==> error.value in {StatementFailed, UserSurvived}
    ensures Integrity(db.tables, db.fks)
    ensures |old(db.trail)| <= |db.trail| && db.trail[..|old(db.trail)|] == old(db.trail)
    ensures forall k | |old(db.trail)| <= k < |db.trail| :: Integrity(db.trail[k], db.fks)
  {
    var start := db.tables;
    PlanKeepsIntegrity(start, db.fks, scope, order);
    UserIsGone(start, db.fks, scope, lower, email);
    var ok := db.ExecuteAll(Statements(start, db.fks, scope, order));
    if !ok {
      db.Rollback(start);
      return Some(StatementFailed);
    }
    UsersRead(db.tables, lower, email);
    if UsersWithEmail(db.tables, lower, email) != {} {
      db.Rollback(start);
      return Some(UserSurvived);
    }
    error := None;
  }

  /** What the report says of the database before the run. */
  ghost predicate Reported(start: Db, fks: seq<ForeignKey>, scope: Scope, report: Report) {
    && LeastScope(start, fks, report.roots, scope) && RootsFixed(report.roots, scope)
    && report.totalRows == |RowsIn(scope, Populated(scope))|
    && (exists level :: InWaves(fks, Populated(scope), report.deletePlan, level))
    && report.retained == RetainPlan(start, fks, scope)
  }

  /** A row outside the least delete set of the account's roots points into it. */
  ghost predicate StrayCause(start: Db, fks: seq<ForeignKey>, lower: string -> string, email: string, roots: Roots,
                             scope: Scope)
  {
    RootsFound(start, lower, email, roots) && LeastScope(start, fks, roots, scope) && !NoOtherStrays(start, fks, scope)
  }

  /** The run once the roots are known. */
  method PurgeRooted(db: Connection, lower: string -> string, email: string, keyed: set<Table>, roots: Roots,
                     apply: bool, maxRows: Num)
    returns (outcome: Outcome, ghost scope: Scope)
    requires Integrity(db.tables, db.fks) && ConsistentNullability(db.fks) && !db.fired
    requires RootsFound(db.tables, lower, email, roots)
    modifies db`tables, db`trail, db`fired
    ensures outcome.Applied? ==>
      && Committed(old(db.tables), db.tables, db.fks, scope, !NoOtherStrays(old(db.tables), db.fks, scope), db.fired,
                   lower, email)
      && (db.fired ==> exists before, st :: db.react(before, st).Some?)
    ensures outcome.Applied? || outcome.DryRun? ==>
      outcome.report.roots == roots && Reported(old(db.tables), db.fks, scope, outcome.report)
    ensures !outcome.Applied? ==> db.tables == old(db.tables)
    ensures outcome.Failed? ==>
      || Refusal(old(db.tables), db.fks, keyed, roots, maxRows, outcome.error)
      || (apply && outcome.error in {StatementFailed, UserSurvived}
          && StrayCause(old(db.tables), db.fks, lower, email, roots, scope))
    ensures !outcome.NotFound?
    ensures Converges(old(db.tables), db.fks, roots) ==>
      forall s | Plannable(old(db.tables), db.fks, keyed, roots, maxRows, s) ::
      if !apply then outcome.DryRun? else NoOtherStrays(old(db.tables), db.fks, s) ==> outcome.Applied?
    ensures Integrity(db.tables, db.fks)
    ensures |old(db.trail)| <= |db.trail| && db.trail[..|old(db.trail)|] == old(db.trail)
    ensures forall k | |old(db.trail)| <= k < |db.trail| :: Integrity(db.trail[k], db.fks)
    ensures !apply ==> db.trail == old(db.trail) && !outcome.Applied?
  {
    scope := map[];
    var start := db.tables;
    var planned := Plan(start, db.fks, keyed, roots, maxRows);
    if planned.Err? { return Failed(planned.error), scope; }
    var (found, order) := planned.value;
    scope := found;
    var report := Report(roots, TotalRows(order, found), order, RetainPlan(start, db.fks, found));
    if !apply { return DryRun(report), scope; }
    OwnersAreNoStrays(start, db.fks, lower, email, roots, found);
    StraysOfLeast(start, db.fks, roots, found);
    var error := Apply(db, lower, email, found, order);
    outcome := if error.Some? then Failed(error.value) else Applied(report);
  }

  /** Whether there are strays does not depend on which least delete set is looked at. */
  lemma {:induction false} StraysOfLeast(start: Db, fks: seq<ForeignKey>, roots: Roots, found: Scope)
    requires LeastScope(start, fks, roots, found)
    ensures forall s | LeastScope(start, fks, roots, s) ::
      NoOtherStrays(start, fks, s) <==> NoOtherStrays(start, fks, found)
  {
    forall s | LeastScope(start, fks, roots, s)
      ensures NoOtherStrays(start, fks, s) <==> NoOtherStrays(start, fks, found)
    {
      LeastIsUnique(start, fks, roots, s, found);
      SameTables(start, fks, s, found);
    }
  }

  /** The true cause of every failure. */
  ghost predicate FailureCause(start: Db, fks: seq<ForeignKey>, lower: string -> string, email: string,
                               keyed: set<Table>, apply: bool, maxRows: Num, scope: Scope, e: PurgeError)
  {
    match e
    case RootFailure(root) => RootRefusal(start, lower, email, root)
    case StatementFailed => apply && exists roots :: StrayCause(start, fks, lower, email, roots, scope)
    case UserSurvived => apply && exists roots :: StrayCause(start, fks, lower, email, roots, scope)
    case _ => exists roots ::
      RootsFound(start, lower, email, roots) && Refusal(start, fks, keyed, roots, maxRows, e)
  }

  /**
   Applied means that the user is gone and every constraint holds; the database is then exactly the purged
   one, untouched by any ON DELETE action, if and only if no row outside the scope pointed into it.
   Anything else leaves the database as it was, for a cause that is true of it; so with roots that can be
   purged, a search that converges, a plan that nothing refuses and no strays the run is applied.
   */
  method Purge(db: Connection, lower: string -> string, email: string, keyed: set<Table>, apply: bool, maxRows: Num)
    returns (outcome: Outcome, ghost scope: Scope)
    requires Integrity(db.tables, db.fks) && ConsistentNullability(db.fks) && MembershipsComplete(db.tables)
    requires !db.fired
    modifies db`tables, db`trail, db`fired
    ensures outcome.Applied? ==>
      && Committed(old(db.tables), db.tables, db.fks, scope, !NoOtherStrays(old(db.tables), db.fks, scope), db.fired,
                   lower, email)
      && (db.fired ==> exists before, st :: db.react(before, st).Some?)
    ensures outcome.Applied? || outcome.DryRun? ==>
      && RootsFound(old(db.tables), lower, email, outcome.report.roots)
      && Reported(old(db.tables), db.fks, scope, outcome.report)
    ensures !outcome.Applied? ==> db.tables == old(db.tables)
    ensures outcome.Failed? ==>
      FailureCause(old(db.tables), db.fks, lower, email, keyed, apply, maxRows, scope, outcome.error)
    ensures outcome.NotFound? <==> NoAddress(old(db.tables), lower, email)
    ensures forall roots, s |
      && RootsFound(old(db.tables), lower, email, roots)
      && Plannable(old(db.tables), db.fks, keyed, roots, maxRows, s) && Converges(old(db.tables), db.fks, roots) ::
      if !apply then outcome.DryRun? else NoOtherStrays(old(db.tables), db.fks, s) ==> outcome.Applied?
    ensures Integrity(db.tables, db.fks)
    ensures |old(db.trail)| <= |db.trail| && db.trail[..|old(db.trail)|] == old(db.trail)
    ensures forall k | |old(db.trail)| <= k < |db.trail| :: Integrity(db.trail[k], db.fks)
    ensures !apply ==> db.trail == old(db.trail) && !outcome.Applied?
  {
    scope := map[];
    ghost var start := db.tables;
    var resolved := ResolveRoots(db.tables, lower, email);
    assert NoAddress(start, lower, email) <==> Resolves(start, lower, email, Ok(None));
    forall roots | RootsFound(start, lower, email, roots) ensures resolved == Ok(Some(roots)) {
      AnswerIsUnique(start, lower, email, email, resolved, Ok(Some(roots)));
    }
    if NoAddress(start, lower, email) { AnswerIsUnique(start, lower, email, email, resolved, Ok(None)); }
    match resolved {
      case Err(e) => outcome := Failed(RootFailure(e));
      case Ok(None) => outcome := NotFound;
      case Ok(Some(roots)) =>
        outcome, scope := PurgeRooted(db, lower, email, keyed, roots, apply, maxRows);
    }
  }
}
