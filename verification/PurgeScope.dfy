/** Growing the delete set along foreign keys to a fixpoint. */
module PurgeScope {
  import opened Wrappers
  import opened PurgeSchema
  import opened PurgeRoots

  datatype ScopeError = NoPrimaryKey(table: Table) | NotConverged

  const MAX_PASSES := 20

  /** A key the scope may travel along, from a parent in scope to its children. */
  predicate Expandable(fk: ForeignKey) {
    fk.childTable !in ROOT_ONLY && fk.childTable !in RETAIN && fk.childTable != fk.parentTable
  }

  function ExpandableForeignKeys(fks: seq<ForeignKey>): (r: seq<ForeignKey>)
    ensures forall fk :: fk in r <==> fk in fks && Expandable(fk)
  {
    if fks == [] then []
    else (if Expandable(fks[0]) then [fks[0]] else []) + ExpandableForeignKeys(fks[1..])
  }

  /** Those whose child is neither root-only nor retained, and that do not refer to their own table; in order. */
  lemma {:induction false} ExpandableAre(fks: seq<ForeignKey>, fk: ForeignKey)
    ensures ExpandableForeignKeys(fks + [fk]) == ExpandableForeignKeys(fks) + if Travelled(fk) then [fk] else []
    ensures ExpandableForeignKeys([]) == []
  {
    if fks == [] {
      assert fks + [fk] == [fk] && [fk][1..] == [];
    } else {
      assert (fks + [fk])[1..] == fks[1..] + [fk];
      ExpandableAre(fks[1..], fk);
    }
  }

  function Start(roots: Roots): Scope {
    map["users" := {roots.userId}, "shops" := roots.shopIds, "tenants" := roots.tenantIds]
  }

  /** The scope after the rows of `fk`'s child table that refer to it are added. */
  function Grow(db: Db, fk: ForeignKey, s: Scope): Scope {
    s[fk.childTable := Ids(s, fk.childTable) + Referencing(db, fk, Ids(s, fk.parentTable))]
  }

  ghost predicate ClosedFor(db: Db, fk: ForeignKey, s: Scope) {
    Referencing(db, fk, Ids(s, fk.parentTable)) <= Ids(s, fk.childTable)
  }

  ghost predicate Closed(db: Db, fks: seq<ForeignKey>, s: Scope) {
    forall fk | fk in fks && Expandable(fk) :: ClosedFor(db, fk, s)
  }

  ghost predicate Included(s: Scope, s': Scope) {
    forall t :: Ids(s, t) <= Ids(s', t)
  }

  /** Part of every closed delete set that contains the roots: nothing in it is a guess. */
  ghost predicate Forced(db: Db, fks: seq<ForeignKey>, roots: Roots, s: Scope) {
    forall s' | Included(Start(roots), s') && Closed(db, fks, s') :: Included(s, s')
  }

  /** The least delete set that contains the roots and is closed under the expandable keys. */
  ghost predicate LeastScope(db: Db, fks: seq<ForeignKey>, roots: Roots, s: Scope) {
    Included(Start(roots), s) && Closed(db, fks, s) && Forced(db, fks, roots, s)
  }

  /** The root-only tables hold exactly the resolved roots and no retained table appears. */
  ghost predicate RootsFixed(roots: Roots, s: Scope) {
    && (forall t | t in {"users", "shops", "tenants"} :: t in s && s[t] == RootIds(roots, t))
    && RetainedAbsent(s)
  }

  ghost predicate RetainedAbsent(s: Scope) {
    forall t | t in {"audit_logs", "policy_decisions", "meta_data_deletion_requests"} :: t !in s
  }

  ghost function RootIds(roots: Roots, t: Table): set<Id> {
    match t
    case "users" => {roots.userId}
    case "shops" => roots.shopIds
    case "tenants" => roots.tenantIds
    case _ => {}
  }

  /** A row is reached from the roots by at most `n` expandable links. */
  ghost predicate Reached(db: Db, fks: seq<ForeignKey>, roots: Roots, t: Table, id: Id, n: nat)
    decreases n
  {
    || id in RootIds(roots, t)
    || (n > 0 && exists fk, parent ::
          Linked(db, fks, fk, parent, t, id) && Reached(db, fks, roots, fk.parentTable, parent, n - 1))
  }

  /** The scope is never grown in a root-only or retained table, nor along a table's references to itself. */
  ghost predicate Travelled(fk: ForeignKey) {
    && fk.childTable != fk.parentTable
    && fk.childTable !in {"users", "shops", "tenants"}
    && fk.childTable !in {"audit_logs", "policy_decisions", "meta_data_deletion_requests"}
  }

  ghost predicate Linked(db: Db, fks: seq<ForeignKey>, fk: ForeignKey, parent: Id, t: Table, id: Id) {
    && fk in fks && Travelled(fk) && fk.childTable == t && Holds(db, t, id, fk.childColumn, parent)
  }

  /** Some row is reached, but not by fewer links than there are sweeps. */
  ghost predicate TooFar(db: Db, fks: seq<ForeignKey>, roots: Roots) {
    exists t, id, n: nat :: Reached(db, fks, roots, t, id, n) && !Reached(db, fks, roots, t, id, 19)
  }

  ghost predicate SameIds(s: Scope, s': Scope) {
    forall t :: Ids(s, t) == Ids(s', t)
  }

  /**
   The scope after one sweep over the keys, in their order: behind each whose parent is populated by then, the
   rows that refer to it are added.
   */
  ghost function Sweep(db: Db, keys: seq<ForeignKey>, s: Scope): Scope {
    if keys == [] then s
    else
      var before, fk := Sweep(db, keys[..|keys| - 1], s), keys[|keys| - 1];
      var parents, t := Ids(before, fk.parentTable), fk.childTable;
      if parents == {} then before else before[t := Ids(before, t) + Referencing(db, fk, parents)]
  }

  ghost function Sweeps(db: Db, keys: seq<ForeignKey>, s: Scope, n: nat): Scope {
    if n == 0 then s else Sweep(db, keys, Sweeps(db, keys, s, n - 1))
  }

  /** The sweep after the first `n` adds nothing. */
  ghost predicate SettledAfter(db: Db, fks: seq<ForeignKey>, roots: Roots, n: nat) {
    SameIds(Sweeps(db, ExpandableForeignKeys(fks), Start(roots), n),
            Sweeps(db, ExpandableForeignKeys(fks), Start(roots), n + 1))
  }

  /** One of the first twenty sweeps adds nothing. */
  ghost predicate Converges(db: Db, fks: seq<ForeignKey>, roots: Roots) {
    exists n: nat :: n < 20 && SettledAfter(db, fks, roots, n)
  }

  /**
   A delete set is returned only when it is the least one and a sweep in time adds nothing; the search fails for
   want of a key only on a table the least set needs, and for want of passes only when every sweep added rows.
   */
  method CollectScope(db: Db, fks: seq<ForeignKey>, keyed: set<Table>, roots: Roots)
    returns (r: Result<Scope, ScopeError>)
    ensures r.Ok? ==> LeastScope(db, fks, roots, r.value) && RootsFixed(roots, r.value)
    ensures r.Ok? ==> forall fk | fk in fks && Expandable(fk) && Ids(r.value, fk.parentTable) != {} ::
                        fk.childTable in keyed
    ensures r.Err? && r.error.NoPrimaryKey? ==>
              exists fk :: KeyMissing(db, fks, keyed, roots, fk) && fk.childTable == r.error.table
    ensures r.Ok? ==> Converges(db, fks, roots)
    ensures r == Err(NotConverged) ==> !Converges(db, fks, roots)
  {
    var scope := Start(roots);
    var expandable := ExpandableForeignKeys(fks);
    var pass := 0;
    while pass < MAX_PASSES
      invariant 0 <= pass <= MAX_PASSES
      invariant scope == Sweeps(db, expandable, Start(roots), pass)
      invariant forall n: nat | n < pass :: !SettledAfter(db, fks, roots, n)
    {
      var result := OnePass(db, expandable, keyed, scope);
      if result.Err? {
        UnkeyedIsMissing(db, fks, keyed, roots, pass, result.error);
        return Err(result.error);
      }
      var grew := result.value.1;
      assert expandable[..|expandable|] == expandable;
      scope := result.value.0;
      if !grew {
        assert SettledAfter(db, fks, roots, pass);
        SettledIsLeast(db, fks, keyed, roots, pass);
        return Ok(scope);
      }
      pass := pass + 1;
    }
    r := Err(NotConverged);
  }

  /** A key the least delete set needs to look through is missing. */
  ghost predicate KeyMissing(db: Db, fks: seq<ForeignKey>, keyed: set<Table>, roots: Roots, fk: ForeignKey) {
    && fk in fks && Expandable(fk) && fk.childTable !in keyed
    && forall s' | Included(Start(roots), s') && Closed(db, fks, s') :: Ids(s', fk.parentTable) != {}
  }

  /** The children of populated parents can be addressed. */
  ghost predicate AllKeyed(keys: seq<ForeignKey>, keyed: set<Table>, s: Scope) {
    forall fk | fk in keys && Ids(s, fk.parentTable) != {} :: fk.childTable in keyed
  }

  /** The sweep comes upon a populated parent of a table without a key. */
  ghost predicate Unkeyed(db: Db, keys: seq<ForeignKey>, keyed: set<Table>, start: Scope, e: ScopeError) {
    exists k | 0 <= k < |keys| ::
      && Ids(Sweep(db, keys[..k], start), keys[k].parentTable) != {}
      && keys[k].childTable !in keyed && e == NoPrimaryKey(keys[k].childTable)
  }

  /** A sweep over the first `k` keys; it grew if any row was added. */
  ghost predicate Swept(db: Db, keys: seq<ForeignKey>, keyed: set<Table>, start: Scope, k: nat, s: Scope, grew: bool) {
    && k <= |keys| && s == Sweep(db, keys[..k], start) && Included(start, s)
    && (grew <==> !SameIds(start, s))
    && (!grew ==> AllKeyed(keys[..k], keyed, start))
  }

  /** One sweep over the expandable keys; `true` when the delete set grew. */
  method OnePass(db: Db, expandable: seq<ForeignKey>, keyed: set<Table>, start: Scope)
    returns (r: Result<(Scope, bool), ScopeError>)
    ensures r.Ok? ==> Swept(db, expandable, keyed, start, |expandable|, r.value.0, r.value.1)
    ensures r.Err? ==> Unkeyed(db, expandable, keyed, start, r.error)
  {
    var scope := start;
    var grew := false;
    var k := 0;
    while k < |expandable|
      invariant Swept(db, expandable, keyed, start, k, scope, grew)
    {
      var fk := expandable[k];
      SweepStep(db, expandable, keyed, start, k, scope, grew);
      if Ids(scope, fk.parentTable) != {} {
        if fk.childTable !in keyed { return Err(NoPrimaryKey(fk.childTable)); }
        var before := |Ids(scope, fk.childTable)|;
        scope := Grow(db, fk, scope);
        grew := grew || |Ids(scope, fk.childTable)| > before;
      }
      k := k + 1;
    }
    r := Ok((scope, grew));
  }

  ghost predicate AllReached(db: Db, fks: seq<ForeignKey>, roots: Roots, s: Scope) {
    forall t, id | id in Ids(s, t) :: exists n: nat :: Reached(db, fks, roots, t, id, n)
  }

  ghost predicate HoldsReached(db: Db, fks: seq<ForeignKey>, roots: Roots, s: Scope, n: nat) {
    forall t, id | Reached(db, fks, roots, t, id, n) :: id in Ids(s, t)
  }

  /** What holds of the delete set throughout the search. */
  ghost predicate Sound(db: Db, fks: seq<ForeignKey>, roots: Roots, s: Scope) {
    Included(Start(roots), s) && AllReached(db, fks, roots, s) && RootsFixed(roots, s)
  }

  lemma {:induction false} RootsAreReached(db: Db, fks: seq<ForeignKey>, roots: Roots)
    ensures Sound(db, fks, roots, Start(roots)) && HoldsReached(db, fks, roots, Start(roots), 0)
  {
    forall t, id | id in Ids(Start(roots), t) ensures exists n: nat :: Reached(db, fks, roots, t, id, n) {
      assert Reached(db, fks, roots, t, id, 0);
    }
  }

  lemma {:induction false} GrowIsSound(db: Db, fks: seq<ForeignKey>, roots: Roots, fk: ForeignKey, s: Scope)
    requires Sound(db, fks, roots, s) && fk in fks && Expandable(fk)
    ensures Sound(db, fks, roots, Grow(db, fk, s)) && Included(s, Grow(db, fk, s))
  {
    var s' := Grow(db, fk, s);
    forall t, id | id in Ids(s', t) ensures exists n: nat :: Reached(db, fks, roots, t, id, n) {
      if id !in Ids(s, t) {
        var parent := Rows(db, t)[id][fk.childColumn];
        var n: nat :| Reached(db, fks, roots, fk.parentTable, parent, n);
        assert Linked(db, fks, fk, parent, t, id);
        assert Reached(db, fks, roots, t, id, n + 1);
      }
    }
  }

  /** One key further: skipped where its parent has no rows in scope, and followed where its child can be addressed. */
  lemma {:induction false} SweepStep(
      db: Db, keys: seq<ForeignKey>, keyed: set<Table>, start: Scope, k: nat, s: Scope, grew: bool)
    requires Swept(db, keys, keyed, start, k, s, grew) && k < |keys|
    ensures if Ids(s, keys[k].parentTable) == {} then Swept(db, keys, keyed, start, k + 1, s, grew)
      else if keys[k].childTable !in keyed
      then Unkeyed(db, keys, keyed, start, NoPrimaryKey(keys[k].childTable))
      else
        var grown, t := Grow(db, keys[k], s), keys[k].childTable;
        Swept(db, keys, keyed, start, k + 1, grown, grew || |Ids(grown, t)| > |Ids(s, t)|)
  {
    if Ids(s, keys[k].parentTable) == {} {
      SkipStep(db, keys, keyed, start, k, s, grew);
    } else if keys[k].childTable in keyed {
      GrowStep(db, keys, keyed, start, k, s, grew);
    }
  }

  lemma {:induction false} SkipStep(
      db: Db, keys: seq<ForeignKey>, keyed: set<Table>, start: Scope, k: nat, s: Scope, grew: bool)
    requires Swept(db, keys, keyed, start, k, s, grew) && k < |keys| && Ids(s, keys[k].parentTable) == {}
    ensures Swept(db, keys, keyed, start, k + 1, s, grew)
  {
    assert keys[..k + 1] == keys[..k] + [keys[k]] && keys[..k + 1][..k] == keys[..k];
    assert Ids(start, keys[k].parentTable) <= Ids(s, keys[k].parentTable);
  }

  lemma {:induction false} GrowStep(
      db: Db, keys: seq<ForeignKey>, keyed: set<Table>, start: Scope, k: nat, s: Scope, grew: bool)
    requires Swept(db, keys, keyed, start, k, s, grew) && k < |keys| && Ids(s, keys[k].parentTable) != {}
    requires keys[k].childTable in keyed
    ensures var grown, t := Grow(db, keys[k], s), keys[k].childTable;
      Swept(db, keys, keyed, start, k + 1, grown, grew || |Ids(grown, t)| > |Ids(s, t)|)
  {
    assert keys[..k + 1] == keys[..k] + [keys[k]] && keys[..k + 1][..k] == keys[..k];
    GrowAdds(db, keys[k], start, s);
  }

  /** Growing keeps what is there, and is told by the size of the child's set. */
  lemma {:induction false} GrowAdds(db: Db, fk: ForeignKey, start: Scope, s: Scope)
    requires Included(start, s)
    ensures var grown := Grow(db, fk, s);
      && Included(start, grown)
      && (SameIds(start, grown) <==>
            SameIds(start, s) && |Ids(grown, fk.childTable)| <= |Ids(s, fk.childTable)|)
  {
    var grown := Grow(db, fk, s);
    var before, after := Ids(s, fk.childTable), Ids(grown, fk.childTable);
    assert before <= after && |after| == |before| + |after - before|;
    forall t ensures Ids(start, t) <= Ids(s, t) <= Ids(grown, t) {}
    if SameIds(start, grown) {
      forall t ensures Ids(start, t) == Ids(s, t) {
        assert Ids(start, t) == Ids(grown, t);
      }
      assert before == after;
    }
    if |after| <= |before| {
      assert after - before == {} && before == after;
      if SameIds(start, s) {
        forall t ensures Ids(start, t) == Ids(grown, t) { assert Ids(start, t) == Ids(s, t); }
      }
    }
  }

  /** What is reached is in every closed delete set. */
  lemma {:induction false} ReachedIsForced(db: Db, fks: seq<ForeignKey>, roots: Roots, s: Scope)
    requires AllReached(db, fks, roots, s)
    ensures Forced(db, fks, roots, s)
  {
    forall s', t | Included(Start(roots), s') && Closed(db, fks, s') ensures Ids(s, t) <= Ids(s', t) {
      forall id | id in Ids(s, t) ensures id in Ids(s', t) {
        var n: nat :| Reached(db, fks, roots, t, id, n);
        ReachedIsInScope(db, fks, roots, s', t, id, n);
      }
    }
  }

  /** A sweep that adds nothing leaves the least delete set. */
  lemma {:induction false} SettledIsLeast(db: Db, fks: seq<ForeignKey>, keyed: set<Table>, roots: Roots, n: nat)
    requires SettledAfter(db, fks, roots, n)
    requires var keys := ExpandableForeignKeys(fks); AllKeyed(keys, keyed, Sweeps(db, keys, Start(roots), n))
    ensures
      var s := Sweeps(db, ExpandableForeignKeys(fks), Start(roots), n + 1);
      && LeastScope(db, fks, roots, s) && RootsFixed(roots, s)
      && forall fk | fk in fks && Expandable(fk) && Ids(s, fk.parentTable) != {} :: fk.childTable in keyed
  {
    var keys := ExpandableForeignKeys(fks);
    var before, s := Sweeps(db, keys, Start(roots), n), Sweeps(db, keys, Start(roots), n + 1);
    SweepsReach(db, fks, roots, n);
    SweepSpreads(db, fks, keys, roots, before);
    ReachedIsForced(db, fks, roots, s);
    forall fk | fk in fks && Expandable(fk)
      ensures ClosedFor(db, fk, s) && (Ids(s, fk.parentTable) != {} ==> fk.childTable in keyed)
    {
      assert fk in keys && Ids(before, fk.parentTable) == Ids(s, fk.parentTable);
    }
  }

  lemma {:induction false} UnkeyedIsMissing(
      db: Db, fks: seq<ForeignKey>, keyed: set<Table>, roots: Roots, n: nat, e: ScopeError)
    requires var keys := ExpandableForeignKeys(fks); Unkeyed(db, keys, keyed, Sweeps(db, keys, Start(roots), n), e)
    ensures e.NoPrimaryKey? && exists fk :: KeyMissing(db, fks, keyed, roots, fk) && fk.childTable == e.table
  {
    var keys := ExpandableForeignKeys(fks);
    var start := Sweeps(db, keys, Start(roots), n);
    var k :| 0 <= k < |keys| && Ids(Sweep(db, keys[..k], start), keys[k].parentTable) != {}
             && keys[k].childTable !in keyed && e == NoPrimaryKey(keys[k].childTable);
    var s, fk := Sweep(db, keys[..k], start), keys[k];
    SweepsReach(db, fks, roots, n);
    SweepSpreads(db, fks, keys[..k], roots, start);
    ReachedIsForced(db, fks, roots, s);
    forall s' | Included(Start(roots), s') && Closed(db, fks, s') ensures Ids(s', fk.parentTable) != {} {
      assert Included(s, s');
      assert Ids(s, fk.parentTable) <= Ids(s', fk.parentTable);
    }
    assert KeyMissing(db, fks, keyed, roots, fk);
  }

  /** Every link of `keys` from the rows of `start` has been followed. */
  ghost predicate Spread(db: Db, keys: seq<ForeignKey>, start: Scope, s: Scope) {
    && Included(start, s)
    && forall fk | fk in keys :: Referencing(db, fk, Ids(start, fk.parentTable)) <= Ids(s, fk.childTable)
  }

  lemma {:induction false} SweepSpreads(db: Db, fks: seq<ForeignKey>, keys: seq<ForeignKey>, roots: Roots, s: Scope)
    requires Sound(db, fks, roots, s) && forall fk | fk in keys :: fk in fks && Expandable(fk)
    ensures Sound(db, fks, roots, Sweep(db, keys, s)) && Spread(db, keys, s, Sweep(db, keys, s))
    decreases |keys|
  {
    if keys != [] {
      var init, fk := keys[..|keys| - 1], keys[|keys| - 1];
      assert keys == init + [fk];
      SweepSpreads(db, fks, init, roots, s);
      GrowIsSound(db, fks, roots, fk, Sweep(db, init, s));
      GrowSpreads(db, init, fk, s, Sweep(db, init, s));
    }
  }

  lemma {:induction false} GrowSpreads(db: Db, done: seq<ForeignKey>, fk: ForeignKey, start: Scope, s: Scope)
    requires Spread(db, done, start, s)
    ensures Spread(db, done + [fk], start, Grow(db, fk, s))
  {
    var s' := Grow(db, fk, s);
    forall t ensures Ids(start, t) <= Ids(s', t) && Ids(s, t) <= Ids(s', t) {
      assert Ids(start, t) <= Ids(s, t);
    }
  }

  /** A sweep reaches one link further. */
  lemma {:induction false} OneLinkMore(
      db: Db, fks: seq<ForeignKey>, expandable: seq<ForeignKey>, roots: Roots, start: Scope, s: Scope, n: nat)
    requires forall fk :: fk in expandable <==> fk in fks && Expandable(fk)
    requires Sound(db, fks, roots, s) && HoldsReached(db, fks, roots, start, n) && Spread(db, expandable, start, s)
    ensures HoldsReached(db, fks, roots, s, n + 1)
  {
    forall t, id | Reached(db, fks, roots, t, id, n + 1) ensures id in Ids(s, t) {
      if id in Ids(Start(roots), t) {
        assert Ids(Start(roots), t) <= Ids(s, t);
      } else {
        var fk, parent :| Linked(db, fks, fk, parent, t, id) && Reached(db, fks, roots, fk.parentTable, parent, n);
        assert parent in Ids(start, fk.parentTable) && Expandable(fk);
        ReferencingMeans(db, fk, Ids(start, fk.parentTable), id);
      }
    }
  }

  lemma {:induction false} SweepReaches(
      db: Db, fks: seq<ForeignKey>, keys: seq<ForeignKey>, roots: Roots, s: Scope, n: nat)
    requires Sound(db, fks, roots, s) && HoldsReached(db, fks, roots, s, n)
    requires forall fk :: fk in keys <==> fk in fks && Expandable(fk)
    ensures Sound(db, fks, roots, Sweep(db, keys, s)) && HoldsReached(db, fks, roots, Sweep(db, keys, s), n + 1)
  {
    SweepSpreads(db, fks, keys, roots, s);
    OneLinkMore(db, fks, keys, roots, s, Sweep(db, keys, s), n);
  }

  /** What `n` sweeps hold: reached rows only, and every row that `n` links reach. */
  lemma {:induction false} SweepsReach(db: Db, fks: seq<ForeignKey>, roots: Roots, n: nat)
    ensures var s := Sweeps(db, ExpandableForeignKeys(fks), Start(roots), n);
      Sound(db, fks, roots, s) && HoldsReached(db, fks, roots, s, n)
  {
    RootsAreReached(db, fks, roots);
    if n > 0 {
      SweepsReach(db, fks, roots, n - 1);
      SweepReaches(db, fks, ExpandableForeignKeys(fks), roots,
                   Sweeps(db, ExpandableForeignKeys(fks), Start(roots), n - 1), n - 1);
    }
  }

  /** When all twenty sweeps add rows, some row takes twenty links. */
  lemma {:induction false} NotConvergedIsFar(db: Db, fks: seq<ForeignKey>, roots: Roots)
    requires !Converges(db, fks, roots)
    ensures TooFar(db, fks, roots)
  {
    var keys := ExpandableForeignKeys(fks);
    var before, after := Sweeps(db, keys, Start(roots), 19), Sweeps(db, keys, Start(roots), 20);
    SweepsReach(db, fks, roots, 19);
    SweepsReach(db, fks, roots, 20);
    SweepSpreads(db, fks, keys, roots, before);
    assert !SettledAfter(db, fks, roots, 19);
    var t :| Ids(before, t) != Ids(after, t);
    assert Ids(before, t) <= Ids(after, t);
    var id :| id in Ids(after, t) && id !in Ids(before, t);
    assert !Reached(db, fks, roots, t, id, 19);
  }

  ghost function DepthOf(depth: map<Table, nat>, t: Table): nat {
    if t in depth then depth[t] else 0
  }

  /** The expandable keys form at most twenty layers: every child sits strictly below its parent. */
  ghost predicate Layered(fks: seq<ForeignKey>, depth: map<Table, nat>) {
    forall fk | fk in fks && Expandable(fk) ::
      DepthOf(depth, fk.parentTable) < DepthOf(depth, fk.childTable) < 20
  }

  lemma {:induction false} ReachedByMore(
      db: Db, fks: seq<ForeignKey>, roots: Roots, t: Table, id: Id, m: nat, n: nat)
    requires Reached(db, fks, roots, t, id, m) && m <= n
    ensures Reached(db, fks, roots, t, id, n)
    decreases n
  {
    if id !in Ids(Start(roots), t) {
      var fk, parent :| Linked(db, fks, fk, parent, t, id) && Reached(db, fks, roots, fk.parentTable, parent, m - 1);
      ReachedByMore(db, fks, roots, fk.parentTable, parent, m - 1, n - 1);
    }
  }

  lemma {:induction false} ReachedByDepth(
      db: Db, fks: seq<ForeignKey>, roots: Roots, depth: map<Table, nat>, t: Table, id: Id, n: nat)
    requires Layered(fks, depth) && Reached(db, fks, roots, t, id, n)
    ensures Reached(db, fks, roots, t, id, DepthOf(depth, t))
    decreases n
  {
    if id !in Ids(Start(roots), t) {
      var fk, parent :| Linked(db, fks, fk, parent, t, id) && Reached(db, fks, roots, fk.parentTable, parent, n - 1);
      ReachedByDepth(db, fks, roots, depth, fk.parentTable, parent, n - 1);
      ReachedByMore(db, fks, roots, fk.parentTable, parent, DepthOf(depth, fk.parentTable), DepthOf(depth, t) - 1);
    }
  }

  /** Under keys in layers the search converges, whatever the database holds. */
  lemma {:induction false} LayersConverge(db: Db, fks: seq<ForeignKey>, roots: Roots, depth: map<Table, nat>)
    requires Layered(fks, depth)
    ensures !TooFar(db, fks, roots) && Converges(db, fks, roots)
  {
    if !Converges(db, fks, roots) { NotConvergedIsFar(db, fks, roots); }
    forall t, id, n: nat | Reached(db, fks, roots, t, id, n) ensures Reached(db, fks, roots, t, id, MAX_PASSES - 1) {
      ReachedByDepth(db, fks, roots, depth, t, id, n);
      if DepthOf(depth, t) < MAX_PASSES {
        ReachedByMore(db, fks, roots, t, id, DepthOf(depth, t), MAX_PASSES - 1);
      } else {
        assert id in Ids(Start(roots), t);
      }
    }
  }

  /** The returned delete set is exactly what the foreign keys reach from the roots. */
  lemma {:induction false} ScopeIsReachable(db: Db, fks: seq<ForeignKey>, roots: Roots, s: Scope, t: Table, id: Id)
    requires LeastScope(db, fks, roots, s)
    ensures id in Ids(s, t) <==> exists n: nat :: Reached(db, fks, roots, t, id, n)
  {
    var reached := map u | u in s :: set i | i in s[u] && exists n: nat :: Reached(db, fks, roots, u, i, n);
    assert Included(Start(roots), reached) by {
      forall u, i | i in Ids(Start(roots), u) ensures i in Ids(reached, u) {
        assert i in Ids(s, u) && Reached(db, fks, roots, u, i, 0);
      }
    }
    forall fk | fk in fks && Expandable(fk) ensures ClosedFor(db, fk, reached) {
      forall i | i in Referencing(db, fk, Ids(reached, fk.parentTable)) ensures i in Ids(reached, fk.childTable) {
        var parent := Rows(db, fk.childTable)[i][fk.childColumn];
        var n: nat :| Reached(db, fks, roots, fk.parentTable, parent, n);
        assert Linked(db, fks, fk, parent, fk.childTable, i);
        assert Reached(db, fks, roots, fk.childTable, i, n + 1);
        assert ClosedFor(db, fk, s);
      }
    }
    assert Closed(db, fks, reached);
    if id in Ids(s, t) {
      assert Included(s, reached);
      assert id in Ids(reached, t);
      assert exists n: nat :: Reached(db, fks, roots, t, id, n);
    }
    if n: nat :| Reached(db, fks, roots, t, id, n) {
      ReachedIsInScope(db, fks, roots, s, t, id, n);
      assert id in Ids(s, t);
    }
  }

  lemma {:induction false} ReachedIsInScope(
    db: Db, fks: seq<ForeignKey>, roots: Roots, s: Scope, t: Table, id: Id, n: nat)
    requires Included(Start(roots), s) && Closed(db, fks, s) && Reached(db, fks, roots, t, id, n)
    ensures id in Ids(s, t)
    decreases n
  {
    if id !in Ids(Start(roots), t) {
      var fk, parent :| Linked(db, fks, fk, parent, t, id) && Reached(db, fks, roots, fk.parentTable, parent, n - 1);
      ReachedIsInScope(db, fks, roots, s, fk.parentTable, parent, n - 1);
      assert ClosedFor(db, fk, s);
    } else {
      assert Ids(Start(roots), t) <= Ids(s, t);
    }
  }

  /** There is one least delete set. */
  lemma {:induction false} LeastIsUnique(db: Db, fks: seq<ForeignKey>, roots: Roots, s: Scope, s': Scope)
    requires LeastScope(db, fks, roots, s) && LeastScope(db, fks, roots, s')
    ensures SameIds(s, s')
  {
    assert Included(s, s') && Included(s', s);
    forall t ensures Ids(s, t) == Ids(s', t) {
      assert Ids(s, t) <= Ids(s', t) && Ids(s', t) <= Ids(s, t);
    }
  }
}
