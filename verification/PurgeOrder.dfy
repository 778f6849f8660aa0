/** Children before parents: the order in which the purge deletes from its tables. */
module PurgeOrder {
  import opened Wrappers
  import opened Sorting
  import opened PurgeSchema

  datatype OrderError = ForeignKeyCycle(among: set<Table>)

  /** (parent, child) pairs among `tables`, self-references left out. */
  function Edges(tables: set<Table>, fks: seq<ForeignKey>): set<(Table, Table)> {
    set fk | fk in fks && fk.childTable != fk.parentTable && fk.childTable in tables && fk.parentTable in tables
        :: (fk.parentTable, fk.childTable)
  }

  /** Tables none of whose children remain. */
  function Ready(rest: set<Table>, edges: set<(Table, Table)>): set<Table> {
    set t | t in rest && forall e | e in edges && e.0 == t :: e.1 !in rest
  }

  ghost function Listing(s: set<Table>): (r: seq<Table>)
    ensures multiset(r) == multiset(s)
  {
    if s == {} then [] else
    var t :| t in s;
    assert multiset(s) == multiset{t} + multiset(s - {t});
    [t] + Listing(s - {t})
  }

  /** The sorted listing of a set: a function of the set alone. */
  ghost function SortedListing(s: set<Table>): seq<Table> {
    Sort(StringLeq, Listing(s))
  }

  /** The deletion order as a function of the sets of tables and edges; None when a cycle blocks it. */
  ghost function Order(rest: set<Table>, edges: set<(Table, Table)>): Option<seq<Table>> {
    var ready := Ready(rest, edges);
    if rest == {} then Some([])
    else if ready == {} then None
    else match Order(rest - ready, edges)
      case None => None
      case Some(tail) => Some(SortedListing(ready) + tail)
  }

  function Filter(s: seq<Table>, keep: set<Table>): (r: seq<Table>)
    ensures forall t :: t in r <==> t in s && t in keep
    ensures Distinct(s) ==> Distinct(r)
  {
    if s == [] then []
    else (if s[0] in keep then [s[0]] else []) + Filter(s[1..], keep)
  }

  /** `full` is what has been ordered so far followed by the order of the rest. */
  ghost predicate Extends(full: Option<seq<Table>>, order: seq<Table>, rest: Option<seq<Table>>) {
    if rest.Some? then full.Some? && full.value == order + rest.value else full.None?
  }

  /** Some of the tables, each with a child among them: what the error names. */
  ghost predicate Blocked(among: set<Table>, tables: set<Table>, edges: set<(Table, Table)>) {
    among != {} && among <= tables && Ready(among, edges) == {}
  }

  /** The script returns the order, or throws when there is none. */
  ghost predicate Delivers(tables: set<Table>, edges: set<(Table, Table)>, r: Result<seq<Table>, OrderError>) {
    var order := Order(tables, edges);
    if order.Some? then r == Ok(order.value) else r.Err? && Blocked(r.error.among, tables, edges)
  }

  method TopologicalOrder(tables: seq<Table>, fks: seq<ForeignKey>) returns (r: Result<seq<Table>, OrderError>)
    ensures Delivers(Elements(tables), Edges(Elements(tables), fks), r)
  {
    var inScope := Unique(tables);
    var all := Elements(tables);
    var edges := Edges(all, fks);
    var order, done: set<Table> := [], {};
    ghost var full := Order(all, edges);
    assert all - done == all;
    while |order| < |inScope|
      invariant Progress(all, edges, full, order, done)
      decreases all - done
    {
      var wave := NextWave(inScope, all - done, edges);
      if |wave| == 0 {
        Stuck(inScope, all, edges, full, order, done);
        return Err(ForeignKeyCycle(all - done));
      }
      Advance(all, edges, full, order, done, wave);
      order, done := order + wave, done + Elements(wave);
    }
    Finish(inScope, all, edges, full, order, done);
    r := Ok(order);
  }

  ghost predicate Lists(s: seq<Table>, elements: set<Table>) {
    Distinct(s) && forall t :: t in s <==> t in elements
  }

  /** The tables ordered so far are `done`, and ordering the rest after them completes the order. */
  ghost predicate Progress(all: set<Table>, edges: set<(Table, Table)>, full: Option<seq<Table>>,
                           order: seq<Table>, done: set<Table>)
  {
    done <= all && Lists(order, done) && Extends(full, order, Order(all - done, edges))
  }

  lemma {:induction false} Advance(all: set<Table>, edges: set<(Table, Table)>, full: Option<seq<Table>>,
                order: seq<Table>, done: set<Table>, wave: seq<Table>)
    requires Progress(all, edges, full, order, done)
    requires wave == SortedListing(Ready(all - done, edges)) && |wave| > 0
    ensures Progress(all, edges, full, order + wave, done + Elements(wave))
    ensures all - (done + Elements(wave)) < all - done
  {
    var ready := Ready(all - done, edges);
    ListingElements(ready);
    assert wave[0] in ready && Elements(wave) == ready;
    WaveIsFresh(order, done, wave, ready);
    WaveExtends(full, order, all - done, edges);
    OneWaveLess(all, done, ready, wave[0]);
  }

  lemma {:induction false} OneWaveLess(all: set<Table>, done: set<Table>, ready: set<Table>, t: Table)
    requires ready <= all - done && t in ready
    ensures (all - done) - ready == all - (done + ready) && all - (done + ready) < all - done
  {
    assert t in all - done;
  }

  lemma {:induction false} Stuck(
      inScope: seq<Table>, all: set<Table>, edges: set<(Table, Table)>, full: Option<seq<Table>>,
      order: seq<Table>, done: set<Table>)
    requires Progress(all, edges, full, order, done) && Lists(inScope, all) && |order| < |inScope|
    requires SortedListing(Ready(all - done, edges)) == []
    ensures full.None? && Blocked(all - done, all, edges)
  {
    SizeOfListing(inScope, all);
    SizeOfListing(order, done);
    var rest := all - done;
    assert |rest| == |all| - |done|;
    assert Ready(rest, edges) == {} by {
      ListingElements(Ready(rest, edges));
    }
  }

  lemma {:induction false} Finish(
      inScope: seq<Table>, all: set<Table>, edges: set<(Table, Table)>, full: Option<seq<Table>>,
      order: seq<Table>, done: set<Table>)
    requires Progress(all, edges, full, order, done) && Lists(inScope, all) && |order| >= |inScope|
    ensures full == Some(order)
  {
    SizeOfListing(inScope, all);
    SizeOfListing(order, done);
    assert done == all by { assert |all - done| == |all| - |done|; }
    assert all - done == {};
    assert order + [] == order;
  }

  /** The tables that are ready, in sorted order. */
  method NextWave(inScope: seq<Table>, rest: set<Table>, edges: set<(Table, Table)>) returns (wave: seq<Table>)
    requires Distinct(inScope) && forall t | t in rest :: t in inScope
    ensures wave == SortedListing(Ready(rest, edges))
  {
    var ready := Filter(inScope, Ready(rest, edges));
    SortOfListing(ready, Ready(rest, edges));
    wave := Sort(StringLeq, ready);
  }

  lemma {:induction false} WaveExtends(
      full: Option<seq<Table>>, order: seq<Table>, rest: set<Table>, edges: set<(Table, Table)>)
    requires Extends(full, order, Order(rest, edges))
    requires Ready(rest, edges) != {}
    ensures Extends(full, order + SortedListing(Ready(rest, edges)), Order(rest - Ready(rest, edges), edges))
  {}

  lemma {:induction false} SizeOfListing(s: seq<Table>, elements: set<Table>)
    requires Lists(s, elements)
    ensures |s| == |elements|
  {
    DistinctMultiset(s);
    assert Elements(s) == elements;
    assert |multiset(s)| == |s|;
  }

  /** However a set is listed, sorting the listing gives the same sequence. */
  lemma {:induction false} SortOfListing(s: seq<Table>, elements: set<Table>)
    requires Lists(s, elements)
    ensures Sort(StringLeq, s) == SortedListing(elements)
  {
    DistinctMultiset(s);
    assert Elements(s) == elements;
    SortStrings(s, Listing(elements));
  }

  lemma {:induction false} WaveIsFresh(order: seq<Table>, done: set<Table>, wave: seq<Table>, ready: set<Table>)
    requires Distinct(order) && Distinct(wave) && done !! ready
    requires forall t :: t in order <==> t in done
    requires forall t :: t in wave <==> t in ready
    ensures Distinct(order + wave) && forall t :: t in order + wave <==> t in done + ready
  {
    var both := order + wave;
    forall i, j | 0 <= i < j < |both| ensures both[i] != both[j] {
      assert both[i] == if i < |order| then order[i] else wave[i - |order|];
      assert both[j] == if j < |order| then order[j] else wave[j - |order|];
      assert i < |order| ==> order[i] in done;
      assert j >= |order| ==> wave[j - |order|] in ready;
    }
  }

  /** A walk along edges, from a parent to a child to its child. */
  ghost predicate Walk(edges: set<(Table, Table)>, p: seq<Table>) {
    forall i, j | 0 <= i && j == i + 1 < |p| :: (p[i], p[j]) in edges
  }

  ghost predicate IsCycle(edges: set<(Table, Table)>, p: seq<Table>) {
    |p| >= 2 && p[0] == p[|p| - 1] && Walk(edges, p)
  }

  ghost predicate Cyclic(edges: set<(Table, Table)>) {
    exists p :: IsCycle(edges, p)
  }

  ghost predicate ChildrenFirst(edges: set<(Table, Table)>, order: seq<Table>) {
    forall i, j | 0 <= i < |order| && 0 <= j < |order| && (order[i], order[j]) in edges :: j < i
  }

  ghost predicate Within(edges: set<(Table, Table)>, tables: set<Table>) {
    forall e | e in edges :: e.0 in tables && e.1 in tables
  }

  /** An order lists every table once, children before their parents. */
  lemma {:induction false} OrderIsTopological(rest: set<Table>, edges: set<(Table, Table)>)
    requires Order(rest, edges).Some?
    ensures var order := Order(rest, edges).value;
            Distinct(order) && (forall t :: t in order <==> t in rest) && ChildrenFirst(edges, order)
    decreases rest
  {
    if rest != {} {
      var ready := Ready(rest, edges);
      OrderIsTopological(rest - ready, edges);
      var wave, tail := SortedListing(ready), Order(rest - ready, edges).value;
      ListingElements(ready);
      WaveIsFresh(wave, ready, tail, rest - ready);
      ChildrenFirstJoins(edges, wave, tail, rest, ready);
    }
  }

  /** A wave of ready tables before an order of the rest is an order of both. */
  lemma {:induction false} ChildrenFirstJoins(
    edges: set<(Table, Table)>, wave: seq<Table>, tail: seq<Table>, rest: set<Table>, ready: set<Table>)
    requires ready == Ready(rest, edges) && ChildrenFirst(edges, tail)
    requires (forall t :: t in wave <==> t in ready) && forall t :: t in wave + tail <==> t in rest
    ensures ChildrenFirst(edges, wave + tail)
  {
    var all := wave + tail;
    forall i, j | 0 <= i < |all| && 0 <= j < |all| && (all[i], all[j]) in edges ensures j < i {
      if i < |wave| {
        assert wave[i] in wave && all[j] in all;
        ReadyHasNoChild(rest, edges, all[i], all[j]);
      } else if |wave| <= j {
        assert all[i] == tail[i - |wave|] && all[j] == tail[j - |wave|];
      }
    }
  }

  lemma {:induction false} ReadyHasNoChild(rest: set<Table>, edges: set<(Table, Table)>, t: Table, c: Table)
    requires t in Ready(rest, edges) && c in rest
    ensures (t, c) !in edges
  {}

  lemma {:induction false} ListingElements(s: set<Table>)
    ensures Distinct(SortedListing(s)) && forall t :: t in SortedListing(s) <==> t in s
  {
    MultisetDistinct(SortedListing(s));
    SameMultiset(SortedListing(s), Listing(s));
    forall t ensures t in SortedListing(s) <==> t in s {
      assert t in multiset(Listing(s)) <==> t in multiset(s);
    }
  }

  /** The run is refused exactly when the edges among the tables contain a cycle. */
  lemma {:induction false} RefusedExactlyOnCycle(tables: set<Table>, edges: set<(Table, Table)>)
    requires Within(edges, tables)
    ensures Order(tables, edges).None? <==> Cyclic(edges)
  {
    if Order(tables, edges).None? {
      NoOrderMeansCycle(tables, edges);
    } else {
      var order := Order(tables, edges).value;
      OrderIsTopological(tables, edges);
      forall p | IsCycle(edges, p) ensures false {
        OrderHasNoCycle(edges, order, p);
      }
    }
  }

  lemma {:induction false} OrderHasNoCycle(edges: set<(Table, Table)>, order: seq<Table>, p: seq<Table>)
    requires Distinct(order) && ChildrenFirst(edges, order)
    requires forall e | e in edges :: e.0 in order && e.1 in order
    requires |p| >= 2 && Walk(edges, p)
    ensures p[0] != p[|p| - 1]
  {
    assert (p[0], p[1]) in edges;
    var start :| 0 <= start < |order| && order[start] == p[0];
    WalkDescends(edges, order, p, start);
  }

  /** In an order, every step of a walk moves strictly earlier. */
  lemma {:induction false} WalkDescends(edges: set<(Table, Table)>, order: seq<Table>, p: seq<Table>, at: nat)
    requires Distinct(order) && ChildrenFirst(edges, order)
    requires forall e | e in edges :: e.1 in order
    requires |p| >= 2 && Walk(edges, p) && at < |order| && order[at] == p[0]
    ensures exists k :: 0 <= k < at && order[k] == p[|p| - 1]
    decreases |p|
  {
    assert (p[0], p[1]) in edges;
    var k :| 0 <= k < |order| && order[k] == p[1];
    assert (order[at], order[k]) in edges;
    if |p| > 2 {
      WalkPart(edges, p, 1, |p|);
      assert p[1..|p|] == p[1..];
      WalkDescends(edges, order, p[1..], k);
    }
  }

  lemma {:induction false} NoOrderMeansCycle(rest: set<Table>, edges: set<(Table, Table)>)
    requires Order(rest, edges).None?
    ensures Cyclic(edges)
    decreases rest
  {
    var ready := Ready(rest, edges);
    if ready == {} {
      var t :| t in rest;
      StuckMeansCycle(rest, edges, t);
    } else {
      NoOrderMeansCycle(rest - ready, edges);
    }
  }

  lemma {:induction false} StuckMeansCycle(rest: set<Table>, edges: set<(Table, Table)>, t: Table)
    requires Ready(rest, edges) == {} && t in rest
    ensures Cyclic(edges)
  {
    var p := LongWalk(rest, edges, t, |rest| + 1);
    var i, j := Repeat(p, rest);
    WalkPart(edges, p, i, j + 1);
    assert p[i..j + 1][0] == p[i..j + 1][j - i];
    assert IsCycle(edges, p[i..j + 1]);
  }

  lemma {:induction false} WalkPart(edges: set<(Table, Table)>, p: seq<Table>, i: nat, j: nat)
    requires Walk(edges, p) && i <= j <= |p|
    ensures Walk(edges, p[i..j])
  {}

  /** When nothing is ready, a walk can always be continued among the remaining tables. */
  lemma {:induction false} LongWalk(rest: set<Table>, edges: set<(Table, Table)>, t: Table, n: nat)
    returns (p: seq<Table>)
    requires Ready(rest, edges) == {} && t in rest && n >= 1
    ensures |p| == n && p[0] == t && Walk(edges, p) && forall x | x in p :: x in rest
    decreases n
  {
    if n == 1 {
      p := [t];
    } else {
      assert t !in Ready(rest, edges);
      var e :| e in edges && e.0 == t && e.1 in rest;
      var tail := LongWalk(rest, edges, e.1, n - 1);
      p := [t] + tail;
      forall i, j | 0 <= i && j == i + 1 < |p| ensures (p[i], p[j]) in edges {
        if i == 0 { assert (t, e.1) == e; } else { assert (tail[i - 1], tail[j - 1]) in edges; }
      }
    }
  }

  /** Pigeonhole: a sequence longer than the set it draws from repeats an element. */
  lemma {:induction false} Repeat(p: seq<Table>, s: set<Table>) returns (i: nat, j: nat)
    requires |p| > |s| && forall x | x in p :: x in s
    ensures i < j < |p| && p[i] == p[j]
    decreases |p|
  {
    var last := p[|p| - 1];
    var init := p[..|p| - 1];
    if k :| 0 <= k < |init| && init[k] == last {
      i, j := k, |p| - 1;
    } else {
      forall x | x in init ensures x in s - {last} {
        var k :| 0 <= k < |init| && init[k] == x;
        assert x in p;
      }
      assert last in s;
      i, j := Repeat(init, s - {last});
    }
  }

  // ---------------------------------------------------------------- the order, told from the keys

  /** A key of `child` refers to `parent`, another table. */
  ghost predicate ChildOf(fks: seq<ForeignKey>, child: Table, parent: Table) {
    child != parent && exists fk :: fk in fks && fk.childTable == child && fk.parentTable == parent
  }

  /**
   Level by level, and by code units within a level: a table stands above all of its children, and a level
   above zero is one more than that of some child.
   */
  ghost predicate InWaves(fks: seq<ForeignKey>, tables: set<Table>, order: seq<Table>, level: map<Table, nat>) {
    && Lists(order, tables) && level.Keys == tables
    && (forall t, c | t in tables && c in tables && ChildOf(fks, c, t) :: level[c] < level[t])
    && (forall t | t in tables && level[t] > 0 ::
          exists c :: c in tables && ChildOf(fks, c, t) && level[c] == level[t] - 1)
    && (forall i, j | 0 <= i < j < |order| :: Earlier(level, order[i], order[j]))
  }

  ghost predicate Earlier(level: map<Table, nat>, a: Table, b: Table) {
    a in level && b in level && (level[a] < level[b] || (level[a] == level[b] && Precedes(a, b)))
  }

  /** Some of the tables, each with a child among them. */
  ghost predicate Deadlocked(fks: seq<ForeignKey>, tables: set<Table>, among: set<Table>) {
    among != {} && among <= tables && forall t | t in among :: exists c :: c in among && ChildOf(fks, c, t)
  }

  /** All tables in waves, or the ones that wait for each other. */
  ghost predicate Arranged(fks: seq<ForeignKey>, tables: set<Table>, r: Result<seq<Table>, OrderError>) {
    match r
    case Ok(order) => exists level :: InWaves(fks, tables, order, level)
    case Err(ForeignKeyCycle(among)) => Deadlocked(fks, tables, among)
  }

  /** The levels of an order, by the edges. */
  ghost predicate Levels(rest: set<Table>, edges: set<(Table, Table)>, order: seq<Table>, level: map<Table, nat>) {
    && Lists(order, rest) && level.Keys == rest
    && (forall e | e in edges && e.0 in rest && e.1 in rest :: level[e.1] < level[e.0])
    && (forall t | t in rest && level[t] > 0 ::
          exists e :: e in edges && e.0 == t && e.1 in rest && level[e.1] == level[t] - 1)
    && (forall i, j | 0 <= i < j < |order| :: Earlier(level, order[i], order[j]))
  }

  lemma {:induction false} OrderHasLevels(rest: set<Table>, edges: set<(Table, Table)>) returns (level: map<Table, nat>)
    requires Order(rest, edges).Some?
    ensures Levels(rest, edges, Order(rest, edges).value, level)
    decreases rest
  {
    OrderIsTopological(rest, edges);
    level := map[];
    if rest != {} {
      var ready := Ready(rest, edges);
      var above := OrderHasLevels(rest - ready, edges);
      level := map t | t in rest :: if t in ready then 0 else above[t] + 1;
      LevelsStep(rest, edges, ready, above, level);
      WaveIsSorted(ready);
      ListingElements(ready);
      LevelsJoin(rest, ready, SortedListing(ready), Order(rest - ready, edges).value, above, level);
    }
  }

  lemma {:induction false} LevelsStep(
      rest: set<Table>, edges: set<(Table, Table)>, ready: set<Table>, above: map<Table, nat>, level: map<Table, nat>)
    requires ready == Ready(rest, edges) && above.Keys == rest - ready && level.Keys == rest
    requires forall t | t in rest :: level[t] == if t in ready then 0 else above[t] + 1
    requires forall e | e in edges && e.0 in rest - ready && e.1 in rest - ready :: above[e.1] < above[e.0]
    requires forall t | t in rest - ready && above[t] > 0 ::
      exists e :: e in edges && e.0 == t && e.1 in rest - ready && above[e.1] == above[t] - 1
    ensures forall e | e in edges && e.0 in rest && e.1 in rest :: level[e.1] < level[e.0]
    ensures forall t | t in rest && level[t] > 0 ::
      exists e :: e in edges && e.0 == t && e.1 in rest && level[e.1] == level[t] - 1
  {
    forall t | t in rest && level[t] > 0
      ensures exists e :: e in edges && e.0 == t && e.1 in rest && level[e.1] == level[t] - 1
    {
      if above[t] > 0 {
        var e :| e in edges && e.0 == t && e.1 in rest - ready && above[e.1] == above[t] - 1;
        assert level[e.1] == level[t] - 1;
      } else {
        var e :| e in edges && e.0 == t && e.1 in rest;
        assert e.1 in ready;
      }
    }
  }

  lemma {:induction false} WaveIsSorted(ready: set<Table>)
    ensures var wave := SortedListing(ready); forall i, j | 0 <= i < j < |wave| :: Precedes(wave[i], wave[j])
  {
    var wave := SortedListing(ready);
    StringOrder();
    SortSorts(StringLeq, Listing(ready));
    forall i, j | 0 <= i < j < |wave| ensures Precedes(wave[i], wave[j]) {
      StringLeqMeans(wave[i], wave[j]);
    }
  }

  lemma {:induction false} LevelsJoin(
      rest: set<Table>, ready: set<Table>, wave: seq<Table>, tail: seq<Table>, above: map<Table, nat>,
      level: map<Table, nat>)
    requires ready <= rest && above.Keys == rest - ready && level.Keys == rest
    requires forall t | t in rest :: level[t] == if t in ready then 0 else above[t] + 1
    requires (forall t :: t in wave <==> t in ready) && forall t :: t in tail <==> t in rest - ready
    requires forall i, j | 0 <= i < j < |wave| :: Precedes(wave[i], wave[j])
    requires forall i, j | 0 <= i < j < |tail| :: Earlier(above, tail[i], tail[j])
    ensures forall i, j | 0 <= i < j < |wave + tail| :: Earlier(level, (wave + tail)[i], (wave + tail)[j])
  {
    var all := wave + tail;
    forall i, j | 0 <= i < j < |all| ensures Earlier(level, all[i], all[j]) {
      if j < |wave| {
        assert all[i] == wave[i] && all[j] == wave[j] && wave[i] in ready && wave[j] in ready;
      } else if i < |wave| {
        assert all[i] == wave[i] && wave[i] in ready && all[j] == tail[j - |wave|] && all[j] in tail;
      } else {
        assert all[i] == tail[i - |wave|] && all[j] == tail[j - |wave|] && all[i] in tail && all[j] in tail;
        assert Earlier(above, tail[i - |wave|], tail[j - |wave|]);
      }
    }
  }

  lemma {:induction false} EdgeMeans(tables: set<Table>, fks: seq<ForeignKey>, t: Table, c: Table)
    ensures (t, c) in Edges(tables, fks) <==> t in tables && c in tables && ChildOf(fks, c, t)
  {}

  /** The order the script returns is the one in waves. */
  lemma {:induction false} OrderIsInWaves(tables: set<Table>, fks: seq<ForeignKey>)
    requires Order(tables, Edges(tables, fks)).Some?
    ensures exists level :: InWaves(fks, tables, Order(tables, Edges(tables, fks)).value, level)
  {
    var edges := Edges(tables, fks);
    var level := OrderHasLevels(tables, edges);
    forall t, c | t in tables && c in tables && ChildOf(fks, c, t) ensures level[c] < level[t] {
      EdgeMeans(tables, fks, t, c);
      assert (t, c).0 == t && (t, c).1 == c;
    }
    forall t | t in tables && level[t] > 0
      ensures exists c :: c in tables && ChildOf(fks, c, t) && level[c] == level[t] - 1
    {
      var e :| e in edges && e.0 == t && e.1 in tables && level[e.1] == level[t] - 1;
      EdgeMeans(tables, fks, e.0, e.1);
    }
    assert InWaves(fks, tables, Order(tables, edges).value, level);
  }

  lemma {:induction false} BlockedMeans(tables: set<Table>, fks: seq<ForeignKey>, among: set<Table>)
    ensures Blocked(among, tables, Edges(tables, fks)) <==> Deadlocked(fks, tables, among)
  {
    var edges := Edges(tables, fks);
    forall t | t in among && among <= tables
      ensures t !in Ready(among, edges) <==> exists c :: c in among && ChildOf(fks, c, t)
    {
      NotReadyMeans(tables, fks, among, edges, t);
    }
    assert Ready(among, edges) == {} <==> forall t | t in among :: t !in Ready(among, edges);
  }

  lemma {:induction false} NotReadyMeans(
      tables: set<Table>, fks: seq<ForeignKey>, among: set<Table>, edges: set<(Table, Table)>, t: Table)
    requires edges == Edges(tables, fks) && t in among && among <= tables
    ensures t !in Ready(among, edges) <==> exists c :: c in among && ChildOf(fks, c, t)
  {
    if t !in Ready(among, edges) {
      var e :| e in edges && e.0 == t && e.1 in among;
      EdgeMeans(tables, fks, e.0, e.1);
    }
    if c :| c in among && ChildOf(fks, c, t) {
      EdgeMeans(tables, fks, t, c);
      assert (t, c).0 == t && (t, c).1 == c;
    }
  }

  lemma {:induction false} CycleDeadlocks(edges: set<(Table, Table)>, p: seq<Table>, t: Table)
    requires IsCycle(edges, p) && t in p
    ensures exists c :: c in p && (t, c) in edges
  {
    var i :| 0 <= i < |p| && p[i] == t;
    var k := if i == |p| - 1 then 0 else i;
    assert (p[k], p[k + 1]) in edges && p[k] == t && p[k + 1] in p;
  }

  lemma {:induction false} CycleIsBlocked(tables: set<Table>, edges: set<(Table, Table)>, p: seq<Table>)
    requires IsCycle(edges, p) && Within(edges, tables)
    ensures Blocked(Elements(p), tables, edges)
  {
    var among := Elements(p);
    assert p[0] in among;
    forall t | t in among ensures t in tables && t !in Ready(among, edges) {
      CycleDeadlocks(edges, p, t);
      var c :| c in p && (t, c) in edges;
      assert (t, c).0 == t && (t, c).1 == c && c in among;
    }
  }

  /** The edges contain a cycle exactly when some of the tables each have a child among them. */
  lemma {:induction false} CyclicMeans(tables: set<Table>, fks: seq<ForeignKey>)
    ensures Cyclic(Edges(tables, fks)) <==> exists among :: Deadlocked(fks, tables, among)
  {
    var edges := Edges(tables, fks);
    if p :| IsCycle(edges, p) {
      CycleIsBlocked(tables, edges, p);
      BlockedMeans(tables, fks, Elements(p));
    }
    if among :| Deadlocked(fks, tables, among) {
      BlockedMeans(tables, fks, among);
      BlockedIsCyclic(tables, edges, among);
    }
  }

  lemma {:induction false} BlockedIsCyclic(tables: set<Table>, edges: set<(Table, Table)>, among: set<Table>)
    requires Blocked(among, tables, edges)
    ensures Cyclic(edges)
  {
    var t :| t in among;
    StuckMeansCycle(among, edges, t);
  }

  /** What the script returns or throws is the one or the other. */
  lemma {:induction false} DeliveredIsArranged(
      tables: set<Table>, fks: seq<ForeignKey>, r: Result<seq<Table>, OrderError>)
    requires Delivers(tables, Edges(tables, fks), r)
    ensures Arranged(fks, tables, r)
  {
    if r.Ok? { OrderIsInWaves(tables, fks); } else { BlockedMeans(tables, fks, r.error.among); }
  }
}
