/** The import's keyset pagination: batches after a (created_at, id) cursor, against one full sorted scan. */
module KeysetScan {
  import opened Wrappers
  import opened Sorting

  datatype Row = Row(createdAt: int, id: string, isLead: bool)
  datatype Cursor = Cursor(createdAt: int, id: string)

  /** `ORDER BY created_at, id`. */
  predicate RowLeq(a: Row, b: Row) {
    a.createdAt < b.createdAt || (a.createdAt == b.createdAt && StringLeq(a.id, b.id))
  }

  /** The `where` clause: rows after the cursor. */
  predicate After(cursor: Option<Cursor>, row: Row) {
    cursor.None?
    || row.createdAt > cursor.value.createdAt
    || (row.createdAt == cursor.value.createdAt && StringLeq(cursor.value.id, row.id) && row.id != cursor.value.id)
  }

  /** The rows a source reads: lead rows only from the audit log, every row from applications. */
  predicate Selected(crm: bool, row: Row) {
    crm ==> row.isLead
  }

  function Select(table: seq<Row>, crm: bool, cursor: Option<Cursor>): seq<Row> {
    Filter(table, row => Selected(crm, row) && After(cursor, row))
  }

  function Filter(s: seq<Row>, keep: Row -> bool): (r: seq<Row>)
    ensures forall x :: multiset(r)[x] == if keep(x) then multiset(s)[x] else 0
  {
    if s == [] then []
    else
      assert s == [s[0]] + s[1..];
      var rest := Filter(s[1..], keep);
      if keep(s[0]) then [s[0]] + rest else rest
  }

  /** `cursor` keeps `created_at` as `keep` rounds it; the scan is stated for a cursor that keeps it exactly. */
  function CursorFor(rows: seq<Row>, keep: int -> int): Option<Cursor> {
    if rows == [] then None else Some(Cursor(keep(rows[|rows| - 1].createdAt), rows[|rows| - 1].id))
  }

  /** One query: the selected rows after the cursor, in order, at most `limit` of them. */
  function Query(table: seq<Row>, crm: bool, cursor: Option<Cursor>, limit: nat): seq<Row> {
    Take(Sort(RowLeq, Select(table, crm, cursor)), limit)
  }

  function Take(s: seq<Row>, limit: nat): seq<Row> {
    if |s| <= limit then s else s[..limit]
  }

  ghost function FullScan(table: seq<Row>, crm: bool): seq<Row> {
    Sort(RowLeq, Select(table, crm, None))
  }

  ghost function Flatten(batches: seq<seq<Row>>): seq<Row> {
    if batches == [] then [] else Flatten(batches[..|batches| - 1]) + batches[|batches| - 1]
  }

  ghost predicate UniqueIds(table: seq<Row>) {
    forall i, j | 0 <= i < j < |table| :: table[i].id != table[j].id
  }

  lemma {:induction false} RowOrder()
    ensures TotalOrder(RowLeq)
  {
    StringOrder();
    forall x, y, z | RowLeq(x, y) && RowLeq(y, z) ensures RowLeq(x, z) {
      if x.createdAt == z.createdAt { StringLeqTrans(x.id, y.id, z.id); }
    }
    forall x ensures RowLeq(x, x) { StringLeqRefl(x.id); }
    forall x, y ensures RowLeq(x, y) || RowLeq(y, x) { StringLeqTotal(x.id, y.id); }
  }

  /** A row is after the cursor of another exactly when it comes strictly later. */
  lemma {:induction false} AfterMeansLater(at: Row, row: Row)
    ensures After(CursorOf(at), row) <==> !RowLeq(row, at)
  {
    StringLeqTotal(at.id, row.id);
    StringLeqRefl(at.id);
  }

  lemma {:induction false} UniqueRows(table: seq<Row>)
    requires UniqueIds(table)
    ensures Antisymmetric(RowLeq, table) && Distinct(table)
  {
    forall x, y | x in table && y in table && RowLeq(x, y) && RowLeq(y, x) ensures x == y {
      StringLeqTotal(x.id, y.id);
      var i :| 0 <= i < |table| && table[i] == x;
      var j :| 0 <= j < |table| && table[j] == y;
      assert table[i].id == table[j].id;
    }
  }

  /** Position in the full scan is position in the order: strictly increasing. */
  lemma {:induction false} ScanIncreases(table: seq<Row>, crm: bool)
    requires UniqueIds(table)
    ensures var scan := FullScan(table, crm);
      forall i, j | 0 <= i < j < |scan| :: !RowLeq(scan[j], scan[i])
  {
    var scan := FullScan(table, crm);
    RowOrder();
    UniqueRows(table);
    SortSorts(RowLeq, Select(table, crm, None));
    SelectedRows(table, crm, None);
    forall i, j | 0 <= i < j < |scan| ensures !RowLeq(scan[j], scan[i]) {
      assert scan[i] in scan && scan[j] in scan;
      assert RowLeq(scan[i], scan[j]);
    }
  }

  lemma {:induction false} SelectedRows(table: seq<Row>, crm: bool, cursor: Option<Cursor>)
    requires Distinct(table)
    ensures Distinct(Sort(RowLeq, Select(table, crm, cursor)))
    ensures forall row :: row in Sort(RowLeq, Select(table, crm, cursor)) <==>
      row in table && Selected(crm, row) && After(cursor, row)
  {
    DistinctMultiset(table);
    var picked := Select(table, crm, cursor);
    forall x ensures multiset(picked)[x] <= 1 {
      assert multiset(table)[x] <= 1;
    }
    MultisetDistinct(Sort(RowLeq, picked));
    forall row ensures row in picked <==> row in table && Selected(crm, row) && After(cursor, row) {
      assert row in multiset(picked) <==> row in picked;
      assert row in multiset(table) <==> row in table;
    }
  }

  ghost function CursorOf(row: Row): Option<Cursor> {
    Some(Cursor(row.createdAt, row.id))
  }

  /** The cursor of a scan that has read its first `k` rows. */
  ghost function CursorAt(scan: seq<Row>, k: nat): Option<Cursor>
    requires k <= |scan|
  {
    if k == 0 then None else CursorOf(scan[k - 1])
  }

  /** The query after the cursor of the row at `k - 1` sees exactly the rest of the full scan. */
  lemma {:induction false} QueryContinuesScan(table: seq<Row>, crm: bool, k: nat, cursor: Option<Cursor>)
    requires UniqueIds(table) && k <= |FullScan(table, crm)|
    requires cursor == CursorAt(FullScan(table, crm), k)
    ensures Sort(RowLeq, Select(table, crm, cursor)) == FullScan(table, crm)[k..]
  {
    var scan := FullScan(table, crm);
    if k > 0 {
      RestOfScan(table, crm, k, cursor, scan, Sort(RowLeq, Select(table, crm, cursor)));
    }
  }

  lemma {:induction false} RestOfScan(
      table: seq<Row>, crm: bool, k: nat, cursor: Option<Cursor>, scan: seq<Row>, rest: seq<Row>)
    requires UniqueIds(table) && scan == FullScan(table, crm) && 0 < k <= |scan|
    requires cursor == CursorOf(scan[k - 1]) && rest == Sort(RowLeq, Select(table, crm, cursor))
    ensures rest == scan[k..]
  {
    UniqueRows(table);
    Lists(table, crm, None, scan);
    Lists(table, crm, cursor, rest);
    ScanIncreases(table, crm);
    forall row ensures row in rest <==> row in scan[k..] {
      RowOfRest(table, crm, k, cursor, scan, rest, row);
    }
    SortedListingsAgree(table, rest, scan[k..]);
  }

  /** What a query lists, as a sequence of its own. */
  lemma {:induction false} Lists(table: seq<Row>, crm: bool, cursor: Option<Cursor>, listed: seq<Row>)
    requires Distinct(table) && listed == Sort(RowLeq, Select(table, crm, cursor))
    ensures Sorted(RowLeq, listed) && Distinct(listed)
    ensures forall row :: row in listed <==> row in table && Selected(crm, row) && After(cursor, row)
  {
    RowOrder();
    SelectedRows(table, crm, cursor);
    SortSorts(RowLeq, Select(table, crm, cursor));
  }

  lemma {:induction false} RowOfRest(
      table: seq<Row>, crm: bool, k: nat, cursor: Option<Cursor>, scan: seq<Row>, rest: seq<Row>, row: Row)
    requires 0 < k <= |scan| && forall i, j | 0 <= i < j < |scan| :: !RowLeq(scan[j], scan[i])
    requires cursor == CursorOf(scan[k - 1])
    requires row in scan <==> row in table && Selected(crm, row)
    requires row in rest <==> row in table && Selected(crm, row) && After(cursor, row)
    ensures row in rest <==> row in scan[k..]
  {
    TailOfScan(scan, k, row);
    AfterMeansLater(scan[k - 1], row);
  }

  lemma {:induction false} SortedListingsAgree(table: seq<Row>, a: seq<Row>, b: seq<Row>)
    requires Antisymmetric(RowLeq, table) && forall x | x in a :: x in table
    requires Sorted(RowLeq, a) && Sorted(RowLeq, b) && Distinct(a) && Distinct(b)
    requires forall x :: x in a <==> x in b
    ensures a == b
  {
    RowOrder();
    SameSetSameMultiset(a, b);
    SortedUnique(RowLeq, a, b);
  }

  lemma {:induction false} SameSetSameMultiset(a: seq<Row>, b: seq<Row>)
    requires Distinct(a) && Distinct(b) && forall x :: x in a <==> x in b
    ensures multiset(a) == multiset(b)
  {
    DistinctMultiset(a);
    DistinctMultiset(b);
    assert (set x | x in a) == (set x | x in b);
  }

  lemma {:induction false} TailOfScan(scan: seq<Row>, k: nat, row: Row)
    requires 0 < k <= |scan| && forall i, j | 0 <= i < j < |scan| :: !RowLeq(scan[j], scan[i])
    ensures row in scan[k..] <==> row in scan && !RowLeq(row, scan[k - 1])
  {
    if row in scan {
      var i :| 0 <= i < |scan| && scan[i] == row;
      if i < k {
        RowOrder();
        assert RowLeq(scan[i], scan[k - 1]);
      } else {
        assert scan[k..][i - k] == row;
      }
    }
  }

  // ---------------------------------------------------------------- what a query answers

  /** Earlier by time or, at the same time, by the code units of the id. */
  ghost predicate Earlier(a: Row, b: Row) {
    a.createdAt < b.createdAt || (a.createdAt == b.createdAt && Precedes(a.id, b.id) && a.id != b.id)
  }

  /** A lead row of the audit log, or any row of the applications, later than the cursor if there is one. */
  ghost predicate Wanted(crm: bool, cursor: Option<Cursor>, row: Row) {
    && (row.isLead || !crm)
    && (cursor.Some? ==>
          || row.createdAt > cursor.value.createdAt
          || (row.createdAt == cursor.value.createdAt
              && Precedes(cursor.value.id, row.id) && cursor.value.id != row.id))
  }

  /** The earliest `limit` of the rows wanted, or all of them, each once and in order. */
  ghost predicate IsPage(table: seq<Row>, crm: bool, cursor: Option<Cursor>, limit: nat, page: seq<Row>) {
    && |page| <= limit
    && (forall i, j | 0 <= i < j < |page| :: Earlier(page[i], page[j]))
    && (forall row | row in page :: row in table && Wanted(crm, cursor, row))
    && (forall row | row in table && Wanted(crm, cursor, row) && row !in page ::
          |page| == limit && forall i | 0 <= i < limit :: Earlier(page[i], row))
  }

  lemma {:induction false} WantedMeans(crm: bool, cursor: Option<Cursor>, row: Row)
    ensures Selected(crm, row) && After(cursor, row) <==> Wanted(crm, cursor, row)
  {
    if cursor.Some? { StringLeqMeans(cursor.value.id, row.id); }
  }

  lemma {:induction false} EarlierIfDifferent(table: seq<Row>, a: Row, b: Row)
    requires UniqueIds(table) && a in table && b in table && a != b && RowLeq(a, b)
    ensures Earlier(a, b)
  {
    StringLeqMeans(a.id, b.id);
    var i :| 0 <= i < |table| && table[i] == a;
    var j :| 0 <= j < |table| && table[j] == b;
    assert table[i].id != table[j].id;
  }

  /** A query answers with the page its clauses describe. */
  lemma {:induction false} QueryIsPage(table: seq<Row>, crm: bool, cursor: Option<Cursor>, limit: nat)
    requires UniqueIds(table)
    ensures IsPage(table, crm, cursor, limit, Query(table, crm, cursor, limit))
  {
    var listed := Sort(RowLeq, Select(table, crm, cursor));
    UniqueRows(table);
    Lists(table, crm, cursor, listed);
    forall row ensures Selected(crm, row) && After(cursor, row) <==> Wanted(crm, cursor, row) {
      WantedMeans(crm, cursor, row);
    }
    FirstIsPage(table, crm, cursor, limit, listed);
  }

  lemma {:induction false} FirstIsPage(
      table: seq<Row>, crm: bool, cursor: Option<Cursor>, limit: nat, listed: seq<Row>)
    requires UniqueIds(table) && Sorted(RowLeq, listed) && Distinct(listed)
    requires forall row :: row in listed <==> row in table && Wanted(crm, cursor, row)
    ensures IsPage(table, crm, cursor, limit, Take(listed, limit))
  {
    var page := Take(listed, limit);
    forall i, j | 0 <= i < j < |listed| ensures Earlier(listed[i], listed[j]) {
      assert listed[i] in listed && listed[j] in listed;
      EarlierIfDifferent(table, listed[i], listed[j]);
    }
    forall row | row in page ensures row in table && Wanted(crm, cursor, row) {
      var i :| 0 <= i < |page| && page[i] == row;
      assert listed[i] in listed;
    }
    forall row | row in table && Wanted(crm, cursor, row) && row !in page
      ensures |page| == limit && forall i | 0 <= i < limit :: Earlier(page[i], row)
    {
      var j :| 0 <= j < |listed| && listed[j] == row;
      assert forall k | 0 <= k < |page| :: listed[k] == page[k] && page[k] in page;
    }
  }

  /** The full scan lists the rows wanted, each once and in order. */
  lemma {:induction false} FullScanIs(table: seq<Row>, crm: bool)
    requires UniqueIds(table)
    ensures var scan := FullScan(table, crm);
      && (forall i, j | 0 <= i < j < |scan| :: Earlier(scan[i], scan[j]))
      && forall row :: row in scan <==> row in table && (row.isLead || !crm)
  {
    var scan := FullScan(table, crm);
    QueryIsPage(table, crm, None, |scan| + 1);
  }

  // ---------------------------------------------------------------- the generator

  /** `Model.findAll` with the source's filter, order and limit. */
  function FindAll(table: seq<Row>, crm: bool, batchSize: nat): Option<Cursor> -> seq<Row> {
    (cursor: Option<Cursor>) => Query(table, crm, cursor, batchSize)
  }

  /** The n-th batch, each asked for after the cursor of the one before. */
  ghost function Batch(findAll: Option<Cursor> -> seq<Row>, keep: int -> int, n: nat): seq<Row> {
    findAll(if n == 0 then None else CursorFor(Batch(findAll, keep, n - 1), keep))
  }

  ghost function FirstBatches(findAll: Option<Cursor> -> seq<Row>, keep: int -> int, n: nat): (r: seq<seq<Row>>)
    ensures |r| == n && forall i | 0 <= i < n :: r[i] == Batch(findAll, keep, i)
  {
    if n == 0 then [] else FirstBatches(findAll, keep, n - 1) + [Batch(findAll, keep, n - 1)]
  }

  /** The loop ends after exactly `n` batches. */
  ghost predicate EndsAfter(findAll: Option<Cursor> -> seq<Row>, keep: int -> int, n: nat) {
    Batch(findAll, keep, n) == [] && forall i: nat | i < n :: Batch(findAll, keep, i) != []
  }

  /**
   The generator, asked for at most `pulls` batches. It hands out the batches in turn, and is done exactly
   when it has met an empty one.
   */
  method SourceRows(table: seq<Row>, crm: bool, batchSize: nat, keep: int -> int, pulls: nat)
    returns (batches: seq<seq<Row>>, done: bool)
    ensures |batches| <= pulls && batches == FirstBatches(FindAll(table, crm, batchSize), keep, |batches|)
    ensures forall i | 0 <= i < |batches| :: batches[i] != []
    ensures if done then EndsAfter(FindAll(table, crm, batchSize), keep, |batches|) else |batches| == pulls
    ensures UniqueIds(table) ==> Paged(table, crm, batchSize, keep, batches)
    ensures UniqueIds(table) && done ==> IsPage(table, crm, Behind(batches, keep, |batches|), batchSize, [])
  {
    batches, done := Generate(FindAll(table, crm, batchSize), keep, pulls);
    if UniqueIds(table) {
      forall i | 0 <= i < |batches| ensures IsPage(table, crm, Behind(batches, keep, i), batchSize, batches[i]) {
        BatchIsPage(table, crm, batchSize, keep, i, batches);
      }
      if done { BatchIsPage(table, crm, batchSize, keep, |batches|, batches); }
    }
  }

  /** The time, rounded, and the id of the last row before the i-th batch. */
  ghost function Behind(batches: seq<seq<Row>>, keep: int -> int, i: nat): Option<Cursor>
    requires i <= |batches|
  {
    if i == 0 || batches[i - 1] == [] then None
    else
      var last := batches[i - 1][|batches[i - 1]| - 1];
      Some(Cursor(keep(last.createdAt), last.id))
  }

  /** Each batch is the page behind the one before it. */
  ghost predicate Paged(table: seq<Row>, crm: bool, batchSize: nat, keep: int -> int, batches: seq<seq<Row>>) {
    forall i | 0 <= i < |batches| :: IsPage(table, crm, Behind(batches, keep, i), batchSize, batches[i])
  }

  lemma {:induction false} BatchIsPage(
      table: seq<Row>, crm: bool, batchSize: nat, keep: int -> int, n: nat, batches: seq<seq<Row>>)
    requires UniqueIds(table) && n <= |batches|
    requires forall i | 0 <= i < |batches| :: batches[i] == Batch(FindAll(table, crm, batchSize), keep, i)
    ensures IsPage(table, crm, Behind(batches, keep, n), batchSize, Batch(FindAll(table, crm, batchSize), keep, n))
  {
    QueryIsPage(table, crm, Behind(batches, keep, n), batchSize);
  }

  /** The loop over `findAll`. */
  method Generate(findAll: Option<Cursor> -> seq<Row>, keep: int -> int, pulls: nat)
    returns (batches: seq<seq<Row>>, done: bool)
    ensures |batches| <= pulls && batches == FirstBatches(findAll, keep, |batches|)
    ensures forall i | 0 <= i < |batches| :: batches[i] != []
    ensures if done then EndsAfter(findAll, keep, |batches|) else |batches| == pulls
  {
    batches, done := [], false;
    var cursor: Option<Cursor> := None;
    while |batches| < pulls
      invariant |batches| <= pulls && batches == FirstBatches(findAll, keep, |batches|)
      invariant forall i | 0 <= i < |batches| :: batches[i] != []
      invariant findAll(cursor) == Batch(findAll, keep, |batches|)
    {
      var rows := findAll(cursor);
      if |rows| == 0 { return batches, true; }
      batches := batches + [rows];
      cursor := CursorFor(rows, keep); // a batch that is not empty always gives a cursor
    }
  }

  // ---------------------------------------------------------------- cursors that round

  /** `keep` never rounds up: a JavaScript date drops the microseconds of a PostgreSQL timestamp. */
  ghost predicate NeverUp(keep: int -> int) {
    forall t :: keep(t) <= t
  }

  ghost predicate KeptExactly(keep: int -> int, row: Row) {
    keep(row.createdAt) == row.createdAt
  }

  /** A rounded cursor brings its own row back, and no row later than it comes first. */
  lemma {:induction false} RoundedRereads(
      table: seq<Row>, crm: bool, last: Row, cursor: Cursor, scan: seq<Row>, rest: seq<Row>)
    requires UniqueIds(table) && scan == FullScan(table, crm) && last in scan
    requires cursor.id == last.id && cursor.createdAt < last.createdAt
    requires rest == Sort(RowLeq, Select(table, crm, Some(cursor)))
    ensures rest != [] && RowLeq(rest[0], last)
  {
    UniqueRows(table);
    Lists(table, crm, Some(cursor), rest);
    ScanHolds(table, crm, scan, last);
    FirstIsLeast(rest, last);
  }

  lemma {:induction false} FirstIsLeast(s: seq<Row>, row: Row)
    requires Sorted(RowLeq, s) && row in s
    ensures RowLeq(s[0], row)
  {
    var i :| 0 <= i < |s| && s[i] == row;
    StringLeqRefl(row.id);
  }

  lemma {:induction false} ScanHolds(table: seq<Row>, crm: bool, scan: seq<Row>, row: Row)
    requires UniqueIds(table) && scan == FullScan(table, crm)
    ensures row in scan <==> row in table && Selected(crm, row)
  {
    UniqueRows(table);
    Lists(table, crm, None, scan);
  }

  ghost predicate Increases(scan: seq<Row>) {
    forall i, j | 0 <= i < j < |scan| :: !RowLeq(scan[j], scan[i])
  }

  ghost predicate ContinuesAt(scan: seq<Row>, findAll: Option<Cursor> -> seq<Row>, batchSize: nat, k: nat) {
    k <= |scan| && findAll(CursorAt(scan, k)) == Take(scan[k..], batchSize)
  }

  ghost predicate Continues(scan: seq<Row>, findAll: Option<Cursor> -> seq<Row>, batchSize: nat) {
    forall k: nat | k <= |scan| :: ContinuesAt(scan, findAll, batchSize, k)
  }

  ghost predicate RereadsAt(scan: seq<Row>, findAll: Option<Cursor> -> seq<Row>, keep: int -> int, k: nat) {
    && k < |scan|
    && (KeptExactly(keep, scan[k])
        || (findAll(RoundedCursor(keep, scan[k])) != [] && RowLeq(findAll(RoundedCursor(keep, scan[k]))[0], scan[k])))
  }

  /** What the queries do, said of the scan alone. */
  ghost predicate Serves(scan: seq<Row>, findAll: Option<Cursor> -> seq<Row>, keep: int -> int, batchSize: nat) {
    && batchSize >= 1 && Increases(scan) && Continues(scan, findAll, batchSize)
    && (forall k: nat | k < |scan| :: RereadsAt(scan, findAll, keep, k))
  }

  ghost function RoundedCursor(keep: int -> int, row: Row): Option<Cursor> {
    Some(Cursor(keep(row.createdAt), row.id))
  }

  lemma {:induction false} FindAllServes(table: seq<Row>, crm: bool, batchSize: nat, keep: int -> int)
    requires UniqueIds(table) && batchSize >= 1 && NeverUp(keep)
    ensures Serves(FullScan(table, crm), FindAll(table, crm, batchSize), keep, batchSize)
  {
    var scan, findAll := FullScan(table, crm), FindAll(table, crm, batchSize);
    ScanIncreases(table, crm);
    forall k: nat | k <= |scan| ensures ContinuesAt(scan, findAll, batchSize, k) {
      QueryTakes(table, crm, scan, k, CursorAt(scan, k), batchSize);
    }
    forall k: nat | k < |scan| ensures RereadsAt(scan, findAll, keep, k) {
      QueryRereads(table, crm, batchSize, keep, scan, findAll, k);
    }
  }

  lemma {:induction false} QueryRereads(
      table: seq<Row>, crm: bool, batchSize: nat, keep: int -> int, scan: seq<Row>,
      findAll: Option<Cursor> -> seq<Row>, k: nat)
    requires UniqueIds(table) && batchSize >= 1 && NeverUp(keep) && scan == FullScan(table, crm) && k < |scan|
    requires forall cursor :: findAll(cursor) == Take(Sort(RowLeq, Select(table, crm, cursor)), batchSize)
    ensures RereadsAt(scan, findAll, keep, k)
  {
    if !KeptExactly(keep, scan[k]) {
      var cursor := Cursor(keep(scan[k].createdAt), scan[k].id);
      RoundedRereads(table, crm, scan[k], cursor, scan, Sort(RowLeq, Select(table, crm, Some(cursor))));
    }
  }

  /** The query continues the scan: its next rows, up to the limit. */
  lemma {:induction false} QueryTakes(
      table: seq<Row>, crm: bool, scan: seq<Row>, k: nat, cursor: Option<Cursor>, limit: nat)
    requires UniqueIds(table) && scan == FullScan(table, crm) && k <= |scan| && cursor == CursorAt(scan, k)
    ensures Query(table, crm, cursor, limit) == Take(scan[k..], limit)
  {
    QueryContinuesScan(table, crm, k, cursor);
  }

  /** One row whose time the cursor rounds down is handed out again for ever, whatever the batch size. */
  lemma {:induction false} OneRowRepeats(row: Row, crm: bool, batchSize: nat, keep: int -> int, n: nat)
    requires batchSize >= 1 && Selected(crm, row) && keep(row.createdAt) < row.createdAt
    ensures Batch(FindAll([row], crm, batchSize), keep, n) == [row]
  {
    OneRowQuery(row, crm, batchSize, None);
    OneRowQuery(row, crm, batchSize, RoundedCursor(keep, row));
    SameBatchAgain(FindAll([row], crm, batchSize), keep, row, n);
  }

  lemma {:induction false} SameBatchAgain(findAll: Option<Cursor> -> seq<Row>, keep: int -> int, row: Row, n: nat)
    requires findAll(None) == [row] && findAll(RoundedCursor(keep, row)) == [row]
    ensures Batch(findAll, keep, n) == [row]
  {
    if n > 0 { SameBatchAgain(findAll, keep, row, n - 1); }
  }

  lemma {:induction false} OneRowQuery(row: Row, crm: bool, batchSize: nat, cursor: Option<Cursor>)
    requires batchSize >= 1 && Selected(crm, row) && After(cursor, row)
    ensures Query([row], crm, cursor, batchSize) == [row]
  {
    assert [row][1..] == [];
    assert Select([row], crm, cursor) == [row];
    assert Sort(RowLeq, [row]) == [row];
  }

  /** Dropping the microseconds of a time. */
  ghost function Milliseconds(t: int): int {
    t / 1000 * 1000
  }

  /** Such a row: one microsecond past a millisecond. */
  lemma {:induction false} MicrosecondsRepeat(batchSize: nat, n: nat)
    requires batchSize >= 1
    ensures var row := Row(1, "a", true); Batch(FindAll([row], true, batchSize), Milliseconds, n) == [row]
  {
    OneRowRepeats(Row(1, "a", true), true, batchSize, Milliseconds, n);
  }

  // ---------------------------------------------------------------- the whole scan

  /** Where the i-th batch of a full scan ends. */
  ghost function EndOf(i: nat, batchSize: nat, n: nat): (end: nat)
    ensures end <= n
  {
    if i == 0 then 0 else NextEnd(EndOf(i - 1, batchSize, n), batchSize, n)
  }

  ghost function NextEnd(from: nat, batchSize: nat, n: nat): nat {
    if from + batchSize <= n then from + batchSize else n
  }

  /** The cursor keeps the time of every row a batch of the full scan ends with. */
  ghost predicate ExactAtEnds(scan: seq<Row>, batchSize: nat, keep: int -> int) {
    forall i: nat :: ExactAt(scan, keep, EndOf(i, batchSize, |scan|))
  }

  ghost predicate ExactAt(scan: seq<Row>, keep: int -> int, end: nat) {
    0 < end <= |scan| ==> KeptExactly(keep, scan[end - 1])
  }

  /** The loop ends, and its batches together are the scan. */
  ghost predicate ScansFully(scan: seq<Row>, findAll: Option<Cursor> -> seq<Row>, keep: int -> int) {
    exists n: nat :: EndsAfter(findAll, keep, n) && Flatten(FirstBatches(findAll, keep, n)) == scan
  }

  /** The batches of a run, and the rows before each, as values. */
  datatype Reading = Reading(batch: nat -> seq<Row>, before: nat -> seq<Row>)

  ghost function ReadingOf(findAll: Option<Cursor> -> seq<Row>, keep: int -> int): Reading {
    Reading((n: nat) => Batch(findAll, keep, n), (n: nat) => Flatten(FirstBatches(findAll, keep, n)))
  }

  ghost predicate NextAt(r: Reading, findAll: Option<Cursor> -> seq<Row>, keep: int -> int, i: nat) {
    r.batch(i + 1) == findAll(CursorFor(r.batch(i), keep)) && r.before(i + 1) == r.before(i) + r.batch(i)
  }

  ghost predicate Reads(r: Reading, findAll: Option<Cursor> -> seq<Row>, keep: int -> int) {
    && r.batch(0) == findAll(None) && r.before(0) == []
    && forall i: nat :: NextAt(r, findAll, keep, i)
  }

  lemma {:induction false} ReadingReads(findAll: Option<Cursor> -> seq<Row>, keep: int -> int)
    ensures Reads(ReadingOf(findAll, keep), findAll, keep)
  {
    var r := ReadingOf(findAll, keep);
    assert r.batch(0) == Batch(findAll, keep, 0);
    assert r.before(0) == Flatten(FirstBatches(findAll, keep, 0));
    forall i: nat ensures NextAt(r, findAll, keep, i) {
      assert r.batch(i) == Batch(findAll, keep, i) && r.batch(i + 1) == Batch(findAll, keep, i + 1);
      var batches := FirstBatches(findAll, keep, i + 1);
      assert batches[..i] == FirstBatches(findAll, keep, i);
      assert r.before(i) == Flatten(FirstBatches(findAll, keep, i)) && r.before(i + 1) == Flatten(batches);
    }
  }

  ghost predicate Done(r: Reading, n: nat) {
    r.batch(n) == [] && forall i: nat | i < n :: r.batch(i) != []
  }

  lemma {:induction false} DoneIsEnd(findAll: Option<Cursor> -> seq<Row>, keep: int -> int, n: nat)
    ensures EndsAfter(findAll, keep, n) <==> Done(ReadingOf(findAll, keep), n)
    ensures ReadingOf(findAll, keep).before(n) == Flatten(FirstBatches(findAll, keep, n))
  {
    var r := ReadingOf(findAll, keep);
    assert forall i: nat :: r.batch(i) == Batch(findAll, keep, i);
  }

  /** The batch at `from` and all before it are those of the full scan. */
  ghost predicate InStep(scan: seq<Row>, batchSize: nat, rows: seq<Row>, before: seq<Row>, from: nat) {
    from <= |scan| && rows == Take(scan[from..], batchSize) && before == scan[..from]
  }

  lemma {:induction false} ReadTo(
      scan: seq<Row>, batchSize: nat, keep: int -> int, rows: seq<Row>, before: seq<Row>, from: nat, end: nat)
    requires batchSize >= 1 && InStep(scan, batchSize, rows, before, from)
    requires from < |scan| && end == NextEnd(from, batchSize, |scan|)
    ensures CursorFor(rows, keep) == RoundedCursor(keep, scan[end - 1]) && before + rows == scan[..end]
  {
    assert rows == scan[from..end];
    assert scan[..from] + scan[from..end] == scan[..end];
  }

  lemma {:induction false} StepForward(
      scan: seq<Row>, findAll: Option<Cursor> -> seq<Row>, batchSize: nat, keep: int -> int, r: Reading, i: nat,
      from: nat, end: nat)
    requires batchSize >= 1 && InStep(scan, batchSize, r.batch(i), r.before(i), from)
    requires from < |scan| && end == NextEnd(from, batchSize, |scan|) && NextAt(r, findAll, keep, i)
    requires KeptExactly(keep, scan[end - 1]) && ContinuesAt(scan, findAll, batchSize, end)
    ensures InStep(scan, batchSize, r.batch(i + 1), r.before(i + 1), end)
  {
    ReadTo(scan, batchSize, keep, r.batch(i), r.before(i), from, end);
    assert CursorAt(scan, end) == RoundedCursor(keep, scan[end - 1]);
  }

  /** With a cursor exact at the batch ends, the batches follow the scan to its end. */
  lemma {:induction false} ExactRuns(
      scan: seq<Row>, findAll: Option<Cursor> -> seq<Row>, batchSize: nat, keep: int -> int, r: Reading, i: nat,
      from: nat)
    requires batchSize >= 1 && Continues(scan, findAll, batchSize) && ExactAtEnds(scan, batchSize, keep)
    requires Reads(r, findAll, keep)
    requires from == EndOf(i, batchSize, |scan|) && InStep(scan, batchSize, r.batch(i), r.before(i), from)
    requires forall j: nat | j < i :: r.batch(j) != []
    ensures exists n: nat :: Done(r, n) && r.before(n) == scan
    decreases |scan| - from
  {
    if from < |scan| {
      var end := EndOf(i + 1, batchSize, |scan|);
      assert ExactAt(scan, keep, EndOf(i + 1, batchSize, |scan|)) && ContinuesAt(scan, findAll, batchSize, end);
      assert NextAt(r, findAll, keep, i);
      StepForward(scan, findAll, batchSize, keep, r, i, from, end);
      ExactRuns(scan, findAll, batchSize, keep, r, i + 1, end);
    } else {
      assert scan[..|scan|] == scan;
      assert Done(r, i);
    }
  }

  lemma {:induction false} BeforeGrows(
      findAll: Option<Cursor> -> seq<Row>, keep: int -> int, r: Reading, i: nat, n: nat)
    requires Reads(r, findAll, keep) && i <= n
    ensures r.before(i) <= r.before(n)
    decreases n
  {
    if i < n {
      BeforeGrows(findAll, keep, r, i, n - 1);
      assert NextAt(r, findAll, keep, n - 1);
    }
  }

  lemma {:induction false} NextFollows(scan: seq<Row>, end: nat, next: seq<Row>)
    requires end <= |scan| && next != [] && scan[..end] + next <= scan
    ensures end < |scan| && next[0] == scan[end]
  {
    assert (scan[..end] + next)[end] == next[0];
  }

  /** A batch end where the cursor rounds spoils the scan: the next batch does not continue it. */
  lemma {:induction false} RoundingSpoils(
      scan: seq<Row>, findAll: Option<Cursor> -> seq<Row>, keep: int -> int, end: nat, next: seq<Row>)
    requires Increases(scan) && 0 < end <= |scan| && RereadsAt(scan, findAll, keep, end - 1)
    requires next == findAll(RoundedCursor(keep, scan[end - 1])) && scan[..end] + next <= scan
    ensures KeptExactly(keep, scan[end - 1])
  {
    if next != [] { NextFollows(scan, end, next); }
  }

  /** A run that reads the scan is exact at the next batch end too. */
  lemma {:induction false} NextIsExact(
      scan: seq<Row>, findAll: Option<Cursor> -> seq<Row>, batchSize: nat, keep: int -> int, r: Reading, i: nat,
      n: nat, from: nat, end: nat)
    requires Serves(scan, findAll, keep, batchSize) && Reads(r, findAll, keep)
    requires InStep(scan, batchSize, r.batch(i), r.before(i), from)
    requires from < |scan| && end == NextEnd(from, batchSize, |scan|)
    requires i < n && Done(r, n) && r.before(n) == scan
    ensures KeptExactly(keep, scan[end - 1])
  {
    ReadTo(scan, batchSize, keep, r.batch(i), r.before(i), from, end);
    assert NextAt(r, findAll, keep, i) && NextAt(r, findAll, keep, i + 1);
    assert RereadsAt(scan, findAll, keep, end - 1);
    if i + 1 < n { BeforeGrows(findAll, keep, r, i + 2, n); }
    RoundingSpoils(scan, findAll, keep, end, r.batch(i + 1));
  }

  /** So far the batches are the scan's, and the cursor was exact at every end. */
  ghost predicate ExactSoFar(scan: seq<Row>, batchSize: nat, keep: int -> int, r: Reading, i: nat) {
    && InStep(scan, batchSize, r.batch(i), r.before(i), EndOf(i, batchSize, |scan|))
    && forall j: nat | j <= i :: ExactAt(scan, keep, EndOf(j, batchSize, |scan|))
  }

  lemma {:induction false} FullStaysExact(
      scan: seq<Row>, findAll: Option<Cursor> -> seq<Row>, batchSize: nat, keep: int -> int, r: Reading, i: nat,
      n: nat)
    requires Serves(scan, findAll, keep, batchSize) && Reads(r, findAll, keep) && i <= n
    requires Done(r, n) && r.before(n) == scan
    ensures ExactSoFar(scan, batchSize, keep, r, i)
    decreases i
  {
    if i == 0 {
      assert ContinuesAt(scan, findAll, batchSize, 0);
    } else {
      var from, end := EndOf(i - 1, batchSize, |scan|), EndOf(i, batchSize, |scan|);
      FullStaysExact(scan, findAll, batchSize, keep, r, i - 1, n);
      assert r.batch(i - 1) != [];
      NextIsExact(scan, findAll, batchSize, keep, r, i - 1, n, from, end);
      assert NextAt(r, findAll, keep, i - 1) && ContinuesAt(scan, findAll, batchSize, end);
      StepForward(scan, findAll, batchSize, keep, r, i - 1, from, end);
      ExactOneMore(scan, batchSize, keep, r, i);
    }
  }

  lemma {:induction false} ExactOneMore(scan: seq<Row>, batchSize: nat, keep: int -> int, r: Reading, i: nat)
    requires i > 0 && ExactSoFar(scan, batchSize, keep, r, i - 1)
    requires InStep(scan, batchSize, r.batch(i), r.before(i), EndOf(i, batchSize, |scan|))
    requires ExactAt(scan, keep, EndOf(i, batchSize, |scan|))
    ensures ExactSoFar(scan, batchSize, keep, r, i)
  {}

  lemma {:induction false} EndStays(i: nat, j: nat, batchSize: nat, n: nat)
    requires i <= j && EndOf(i, batchSize, n) == n
    ensures EndOf(j, batchSize, n) == n
    decreases j
  {
    if i < j { EndStays(i, j - 1, batchSize, n); }
  }

  lemma {:induction false} FullIsExact(
      scan: seq<Row>, findAll: Option<Cursor> -> seq<Row>, batchSize: nat, keep: int -> int, r: Reading, n: nat)
    requires Serves(scan, findAll, keep, batchSize) && Reads(r, findAll, keep)
    requires Done(r, n) && r.before(n) == scan
    ensures ExactAtEnds(scan, batchSize, keep)
  {
    FullStaysExact(scan, findAll, batchSize, keep, r, n, n);
    forall i: nat ensures ExactAt(scan, keep, EndOf(i, batchSize, |scan|)) {
      if i > n { EndStays(n, i, batchSize, |scan|); }
    }
  }

  lemma {:induction false} FullExactly(
      scan: seq<Row>, findAll: Option<Cursor> -> seq<Row>, batchSize: nat, keep: int -> int, r: Reading)
    requires Serves(scan, findAll, keep, batchSize) && Reads(r, findAll, keep)
    ensures (exists n: nat :: Done(r, n) && r.before(n) == scan) <==> ExactAtEnds(scan, batchSize, keep)
  {
    if ExactAtEnds(scan, batchSize, keep) {
      assert ContinuesAt(scan, findAll, batchSize, 0);
      ExactRuns(scan, findAll, batchSize, keep, r, 0, 0);
    }
    if n: nat :| Done(r, n) && r.before(n) == scan {
      FullIsExact(scan, findAll, batchSize, keep, r, n);
    }
  }

  /**
   The loop ends with its batches one full sorted scan if and only if the cursor keeps the time of every
   row that ends a batch of it exactly.
   */
  lemma {:induction false} FullScanExactly(table: seq<Row>, crm: bool, batchSize: nat, keep: int -> int)
    requires UniqueIds(table) && batchSize >= 1 && NeverUp(keep)
    ensures ScansFully(FullScan(table, crm), FindAll(table, crm, batchSize), keep)
       <==> ExactAtEnds(FullScan(table, crm), batchSize, keep)
  {
    var scan, findAll := FullScan(table, crm), FindAll(table, crm, batchSize);
    var r := ReadingOf(findAll, keep);
    FindAllServes(table, crm, batchSize, keep);
    ReadingReads(findAll, keep);
    FullExactly(scan, findAll, batchSize, keep, r);
    forall n: nat
      ensures EndsAfter(findAll, keep, n) && Flatten(FirstBatches(findAll, keep, n)) == scan
         <==> Done(r, n) && r.before(n) == scan
    {
      DoneIsEnd(findAll, keep, n);
    }
  }
}
