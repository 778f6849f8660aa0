/** When the keyset loop ends: its batches as a walk over positions of the full scan. */
module KeysetEnds {
  import opened Wrappers
  import opened Sorting
  import opened KeysetScan

  // ---------------------------------------------------------------- walks

  /** The position after `k` batches, when the one after position `p` starts at `start(p)`. */
  ghost function Walk(start: nat -> nat, size: nat, n: nat, k: nat): (p: nat)
    ensures k == 0 ==> p == 0
  {
    if k == 0 then 0 else NextEnd(start(Walk(start, size, n, k - 1)), size, n)
  }

  ghost predicate Halts(start: nat -> nat, size: nat, n: nat, k: nat) {
    start(Walk(start, size, n, k)) >= n
  }

  lemma {:induction false} WalkInside(start: nat -> nat, size: nat, n: nat, k: nat)
    ensures Walk(start, size, n, k) <= n
  {}

  /** Where every earlier position moves on, the walk reaches the end. */
  lemma {:induction false} WalkAdvances(start: nat -> nat, size: nat, n: nat, k: nat)
    requires size >= 1 && start(n) >= n && forall p: nat | p < n :: p < start(p) + size
    ensures Walk(start, size, n, k) >= if k < n then k else n
  {
    if k > 0 {
      WalkAdvances(start, size, n, k - 1);
      WalkInside(start, size, n, k - 1);
    }
  }

  /** A position that no batch before it passes is never passed. */
  lemma {:induction false} WalkStuck(start: nat -> nat, size: nat, n: nat, k: nat, cap: nat)
    requires forall p: nat | p <= cap :: start(p) + size <= cap
    ensures Walk(start, size, n, k) <= cap
  {
    if k > 0 { WalkStuck(start, size, n, k - 1, cap); }
  }

  lemma {:induction false} WalkStays(start: nat -> nat, size: nat, n: nat, k: nat, j: nat)
    requires start(n) >= n && Walk(start, size, n, k) == n && k <= j
    ensures Walk(start, size, n, j) == n
    decreases j
  {
    if k < j { WalkStays(start, size, n, k, j - 1); }
  }

  /** From equal positions on the walk repeats itself. */
  lemma {:induction false} WalkRepeats(start: nat -> nat, size: nat, n: nat, i: nat, j: nat, k: nat)
    requires Walk(start, size, n, i) == Walk(start, size, n, j)
    ensures Walk(start, size, n, i + k) == Walk(start, size, n, j + k)
  {
    if k > 0 { WalkRepeats(start, size, n, i, j, k - 1); }
  }

  ghost function Positions(start: nat -> nat, size: nat, n: nat, k: nat): (s: seq<nat>)
    ensures |s| == k && forall i | 0 <= i < k :: s[i] == Walk(start, size, n, i + 1)
  {
    if k == 0 then [] else Positions(start, size, n, k - 1) + [Walk(start, size, n, k)]
  }

  lemma {:induction false} DistinctFitsBelow(s: seq<nat>, n: nat)
    requires (forall i, j | 0 <= i < j < |s| :: s[i] != s[j]) && forall i | 0 <= i < |s| :: 1 <= s[i] <= n
    ensures |s| <= n
    decreases n
  {
    if s != [] {
      assert 1 <= s[0] <= n;
      if k :| 0 <= k < |s| && s[k] == n {
        var rest := s[..k] + s[k + 1..];
        DistinctFitsBelow(rest, n - 1);
      } else {
        DistinctFitsBelow(s, n - 1);
      }
    }
  }

  /** A walk that halts for the first time does so within as many steps as there are positions. */
  lemma {:induction false} HaltsSoon(start: nat -> nat, size: nat, n: nat, k: nat)
    requires size >= 1 && n >= 1 && Halts(start, size, n, k) && forall i: nat | i < k :: !Halts(start, size, n, i)
    ensures k <= n
  {
    var s := Positions(start, size, n, k);
    forall i, j | 0 <= i < j < k ensures s[i] != s[j] {
      if s[i] == s[j] {
        WalkRepeats(start, size, n, i + 1, j + 1, k - (j + 1));
        assert Halts(start, size, n, i + 1 + (k - (j + 1)));
      }
    }
    forall i | 0 <= i < k ensures 1 <= s[i] <= n { WalkInside(start, size, n, i + 1); }
    DistinctFitsBelow(s, n);
  }

  lemma {:induction false} FirstHalt(start: nat -> nat, size: nat, n: nat, k: nat) returns (first: nat)
    requires Halts(start, size, n, k)
    ensures first <= k && Halts(start, size, n, first) && forall i: nat | i < first :: !Halts(start, size, n, i)
  {
    if i: nat :| i < k && Halts(start, size, n, i) {
      first := FirstHalt(start, size, n, i);
    } else {
      first := k;
    }
  }

  // ---------------------------------------------------------------- cursors and positions

  /** The number of rows that are not after the cursor: where a batch after it starts. */
  ghost function Start(scan: seq<Row>, cursor: Option<Cursor>): (k: nat)
    ensures k <= |scan| && (k < |scan| ==> After(cursor, scan[k])) && forall i | 0 <= i < k :: !After(cursor, scan[i])
  {
    if scan == [] || After(cursor, scan[0]) then 0 else 1 + Start(scan[1..], cursor)
  }

  lemma {:induction false} LaterIsAfter(cursor: Option<Cursor>, a: Row, b: Row)
    requires After(cursor, a) && !RowLeq(b, a)
    ensures After(cursor, b)
  {
    if cursor.Some? {
      var c := Row(cursor.value.createdAt, cursor.value.id, true);
      RowOrder();
      AfterMeansLater(c, a);
      AfterMeansLater(c, b);
      assert cursor == CursorOf(c);
      assert RowLeq(a, b) && (RowLeq(b, c) ==> RowLeq(a, c));
    }
  }

  lemma {:induction false} AfterIsSuffix(scan: seq<Row>, cursor: Option<Cursor>)
    requires Increases(scan)
    ensures forall i | 0 <= i < |scan| :: After(cursor, scan[i]) <==> i >= Start(scan, cursor)
  {
    var k := Start(scan, cursor);
    forall i | k < i < |scan| ensures After(cursor, scan[i]) { LaterIsAfter(cursor, scan[k], scan[i]); }
  }

  /** Any cursor's query lists the scan from its start on. */
  lemma {:induction false} QueryFrom(table: seq<Row>, crm: bool, cursor: Option<Cursor>, limit: nat)
    requires UniqueIds(table)
    ensures var scan := FullScan(table, crm);
      Query(table, crm, cursor, limit) == Take(scan[Start(scan, cursor)..], limit)
  {
    SuffixFrom(table, crm, cursor, FullScan(table, crm), Sort(RowLeq, Select(table, crm, cursor)));
  }

  lemma {:induction false} SuffixFrom(
      table: seq<Row>, crm: bool, cursor: Option<Cursor>, scan: seq<Row>, rest: seq<Row>)
    requires UniqueIds(table) && scan == FullScan(table, crm) && rest == Sort(RowLeq, Select(table, crm, cursor))
    ensures rest == scan[Start(scan, cursor)..]
  {
    UniqueRows(table);
    Lists(table, crm, None, scan);
    Lists(table, crm, cursor, rest);
    ScanIncreases(table, crm);
    AfterIsSuffix(scan, cursor);
    forall row ensures row in rest <==> row in scan[Start(scan, cursor)..] {
      RowOfSuffix(scan, Start(scan, cursor), cursor, row);
    }
    SortedListingsAgree(table, rest, scan[Start(scan, cursor)..]);
  }

  lemma {:induction false} RowOfSuffix(scan: seq<Row>, k: nat, cursor: Option<Cursor>, row: Row)
    requires k <= |scan| && forall i | 0 <= i < |scan| :: After(cursor, scan[i]) <==> i >= k
    ensures row in scan[k..] <==> row in scan && After(cursor, row)
  {
    if row in scan {
      var i :| 0 <= i < |scan| && scan[i] == row;
      if i >= k { assert scan[k..][i - k] == row; }
    }
  }

  /** Where the batch after position `p` starts. */
  ghost function StartAfter(scan: seq<Row>, keep: int -> int): nat -> nat {
    (p: nat) => if 0 < p <= |scan| then Start(scan, RoundedCursor(keep, scan[p - 1])) else 0
  }

  lemma {:induction false} StartsBack(scan: seq<Row>, keep: int -> int, p: nat)
    requires NeverUp(keep) && Increases(scan)
    ensures StartAfter(scan, keep)(p) <= p
    ensures 0 < p <= |scan| ==> (StartAfter(scan, keep)(p) == p <==> KeptExactly(keep, scan[p - 1]))
  {
    if 0 < p <= |scan| {
      var last, cursor := scan[p - 1], RoundedCursor(keep, scan[p - 1]);
      AfterIsSuffix(scan, cursor);
      if p < |scan| {
        RowOrder();
        NextIsAfter(keep, last, scan[p]);
      }
    }
  }

  lemma {:induction false} NextIsAfter(keep: int -> int, a: Row, b: Row)
    requires NeverUp(keep) && !RowLeq(b, a)
    ensures After(RoundedCursor(keep, a), b)
  {
    StringLeqTotal(a.id, b.id);
    StringLeqRefl(a.id);
  }

  /** What the queries do, said of the scan alone. */
  ghost predicate ReadsFrom(scan: seq<Row>, findAll: Option<Cursor> -> seq<Row>, size: nat) {
    size >= 1 && forall cursor :: findAll(cursor) == Take(scan[Start(scan, cursor)..], size)
  }

  lemma {:induction false} LastOfBatch(
      scan: seq<Row>, keep: int -> int, size: nat, from: nat, end: nat, rows: seq<Row>)
    requires size >= 1 && from < |scan| && end == NextEnd(from, size, |scan|) && rows == Take(scan[from..], size)
    ensures rows != [] && 0 < end <= |scan| && CursorFor(rows, keep) == RoundedCursor(keep, scan[end - 1])
  {
    assert rows == scan[from..end];
  }

  /** A batch from `from` is followed by the one that starts where its last row's cursor says. */
  ghost predicate FollowsFrom(
    scan: seq<Row>, batch: nat -> seq<Row>, start: nat -> nat, size: nat, k: nat, from: nat)
  {
    from < |scan| && batch(k) == Take(scan[from..], size) ==>
      var next := start(NextEnd(from, size, |scan|));
      next <= |scan| && batch(k + 1) == Take(scan[next..], size)
  }

  ghost predicate Follows(scan: seq<Row>, batch: nat -> seq<Row>, start: nat -> nat, size: nat) {
    && size >= 1 && start(0) == 0 && batch(0) == Take(scan[0..], size)
    && forall k: nat, from: nat :: FollowsFrom(scan, batch, start, size, k, from)
  }

  ghost function BatchesOf(findAll: Option<Cursor> -> seq<Row>, keep: int -> int): nat -> seq<Row> {
    (k: nat) => Batch(findAll, keep, k)
  }

  lemma {:induction false} BatchesFollow(
      scan: seq<Row>, findAll: Option<Cursor> -> seq<Row>, keep: int -> int, size: nat)
    requires ReadsFrom(scan, findAll, size)
    ensures Follows(scan, BatchesOf(findAll, keep), StartAfter(scan, keep), size)
  {
    var batch, start := BatchesOf(findAll, keep), StartAfter(scan, keep);
    assert Start(scan, None) == 0;
    assert batch(0) == Batch(findAll, keep, 0);
    forall k: nat, from: nat ensures FollowsFrom(scan, batch, start, size, k, from) {
      if from < |scan| && batch(k) == Take(scan[from..], size) {
        var end := NextEnd(from, size, |scan|);
        LastOfBatch(scan, keep, size, from, end, batch(k));
        assert batch(k + 1) == Batch(findAll, keep, k + 1) == findAll(CursorFor(batch(k), keep));
      }
    }
  }

  /** As long as no batch was empty, the next one is read off the walk. */
  lemma {:induction false} BatchOfWalk(
      scan: seq<Row>, batch: nat -> seq<Row>, start: nat -> nat, size: nat, k: nat)
    requires Follows(scan, batch, start, size) && forall i: nat | i < k :: !Halts(start, size, |scan|, i)
    ensures var from := start(Walk(start, size, |scan|, k));
      from <= |scan| && batch(k) == Take(scan[from..], size)
  {
    if k > 0 {
      BatchOfWalk(scan, batch, start, size, k - 1);
      assert !Halts(start, size, |scan|, k - 1);
      assert FollowsFrom(scan, batch, start, size, k - 1, start(Walk(start, size, |scan|, k - 1)));
    }
  }

  /** The batch is empty exactly where the walk halts. */
  lemma {:induction false} EmptyWhereHalted(
      scan: seq<Row>, batch: nat -> seq<Row>, start: nat -> nat, size: nat, k: nat)
    requires Follows(scan, batch, start, size) && forall i: nat | i < k :: !Halts(start, size, |scan|, i)
    ensures batch(k) == [] <==> Halts(start, size, |scan|, k)
  {
    BatchOfWalk(scan, batch, start, size, k);
  }

  lemma {:induction false} FirstEmpty(scan: seq<Row>, batch: nat -> seq<Row>, start: nat -> nat, size: nat, k: nat)
    requires Follows(scan, batch, start, size)
    ensures batch(k) == [] && (forall i: nat | i < k :: batch(i) != []) <==>
      Halts(start, size, |scan|, k) && forall i: nat | i < k :: !Halts(start, size, |scan|, i)
  {
    if i: nat :| i < k && Halts(start, size, |scan|, i) {
      var first := FirstHalt(start, size, |scan|, i);
      EmptyWhereHalted(scan, batch, start, size, first);
    } else {
      forall i: nat | i <= k ensures batch(i) == [] <==> Halts(start, size, |scan|, i) {
        EmptyWhereHalted(scan, batch, start, size, i);
      }
    }
  }

  /** The loop ends after `k` batches exactly when the walk first halts there. */
  lemma {:induction false} EndsWithWalk(
      scan: seq<Row>, findAll: Option<Cursor> -> seq<Row>, keep: int -> int, size: nat, k: nat)
    requires ReadsFrom(scan, findAll, size)
    ensures EndsAfter(findAll, keep, k) <==>
      && Halts(StartAfter(scan, keep), size, |scan|, k)
      && forall i: nat | i < k :: !Halts(StartAfter(scan, keep), size, |scan|, i)
  {
    var batch := BatchesOf(findAll, keep);
    BatchesFollow(scan, findAll, keep, size);
    FirstEmpty(scan, batch, StartAfter(scan, keep), size, k);
    assert forall i: nat :: batch(i) == Batch(findAll, keep, i);
  }

  // ---------------------------------------------------------------- conditions on the rows

  /** The cursor keeps the time of the greatest selected row. */
  ghost predicate LastExact(scan: seq<Row>, keep: int -> int) {
    scan != [] ==> KeptExactly(keep, scan[|scan| - 1])
  }

  /** The row that starts the batch ending at position `p` lies after the cursor of the row that ends it. */
  ghost predicate Stuck(scan: seq<Row>, keep: int -> int, size: nat, p: nat)
    requires 0 < p <= |scan|
  {
    0 < size <= p && After(RoundedCursor(keep, scan[p - 1]), scan[p - size])
  }

  /** It even has a later time than that cursor. */
  ghost predicate StuckInTime(scan: seq<Row>, keep: int -> int, size: nat, p: nat)
    requires 0 < p <= |scan|
  {
    0 < size <= p && scan[p - size].createdAt > keep(scan[p - 1].createdAt)
  }

  ghost predicate Monotone(keep: int -> int) {
    forall a, b | a <= b :: keep(a) <= keep(b)
  }

  /** No row at the very time to which a later row's cursor rounds has the greater id. */
  ghost predicate Untied(scan: seq<Row>, keep: int -> int) {
    forall i, j | 0 <= i < j < |scan| && !KeptExactly(keep, scan[j]) && scan[i].createdAt == keep(scan[j].createdAt) ::
      StringLeq(scan[i].id, scan[j].id)
  }

  ghost predicate NoneStuck(scan: seq<Row>, keep: int -> int, size: nat) {
    forall p | 0 < p < |scan| :: !Stuck(scan, keep, size, p)
  }

  ghost predicate NoneStuckInTime(scan: seq<Row>, keep: int -> int, size: nat) {
    forall p | 0 < p < |scan| :: !StuckInTime(scan, keep, size, p)
  }

  lemma {:induction false} StuckGoesBack(scan: seq<Row>, keep: int -> int, size: nat, p: nat)
    requires Increases(scan) && size >= 1 && 0 < p <= |scan|
    ensures Stuck(scan, keep, size, p) <==> StartAfter(scan, keep)(p) + size <= p
  {
    AfterIsSuffix(scan, RoundedCursor(keep, scan[p - 1]));
  }

  lemma {:induction false} UntiedIsStuckInTime(scan: seq<Row>, keep: int -> int, size: nat, p: nat)
    requires Increases(scan) && NeverUp(keep) && Untied(scan, keep) && 0 < p <= |scan|
    ensures Stuck(scan, keep, size, p) ==> StuckInTime(scan, keep, size, p)
  {
    if Stuck(scan, keep, size, p) {
      var first, last := scan[p - size], scan[p - 1];
      StringLeqTotal(first.id, last.id);
      if size > 1 { assert !RowLeq(last, first); }
    }
  }

  lemma {:induction false} HaltsIf(scan: seq<Row>, keep: int -> int, size: nat)
    requires Increases(scan) && NeverUp(keep) && size >= 1 && LastExact(scan, keep) && NoneStuck(scan, keep, size)
    ensures Halts(StartAfter(scan, keep), size, |scan|, |scan|)
  {
    var start, n := StartAfter(scan, keep), |scan|;
    forall p: nat | p < n ensures p < start(p) + size {
      if p > 0 { StuckGoesBack(scan, keep, size, p); }
    }
    StartsBack(scan, keep, n);
    WalkAdvances(start, size, n, n);
    WalkInside(start, size, n, n);
  }

  lemma {:induction false} HaltsAtEnd(scan: seq<Row>, keep: int -> int, size: nat, k: nat)
    requires Increases(scan) && NeverUp(keep) && Halts(StartAfter(scan, keep), size, |scan|, k)
    ensures Walk(StartAfter(scan, keep), size, |scan|, k) == |scan| && LastExact(scan, keep)
  {
    WalkInside(StartAfter(scan, keep), size, |scan|, k);
    StartsBack(scan, keep, Walk(StartAfter(scan, keep), size, |scan|, k));
  }

  lemma {:induction false} StuckInTimeIsNotPassed(scan: seq<Row>, keep: int -> int, size: nat, p: nat, q: nat)
    requires Increases(scan) && Monotone(keep) && 0 < p < |scan| && StuckInTime(scan, keep, size, p) && q <= p
    ensures StartAfter(scan, keep)(q) + size <= p
  {
    if q > 0 {
      StringLeqTotal(scan[q - 1].id, scan[p - 1].id);
      assert q < p ==> !RowLeq(scan[p - 1], scan[q - 1]);
      assert scan[q - 1].createdAt <= scan[p - 1].createdAt;
      AfterIsSuffix(scan, RoundedCursor(keep, scan[q - 1]));
    }
  }

  lemma {:induction false} HaltsOnlyIf(scan: seq<Row>, keep: int -> int, size: nat, k: nat)
    requires Increases(scan) && NeverUp(keep) && Monotone(keep) && Halts(StartAfter(scan, keep), size, |scan|, k)
    ensures NoneStuckInTime(scan, keep, size)
  {
    var start, n := StartAfter(scan, keep), |scan|;
    HaltsAtEnd(scan, keep, size, k);
    forall p | 0 < p < n ensures !StuckInTime(scan, keep, size, p) {
      if StuckInTime(scan, keep, size, p) {
        forall q: nat | q <= p ensures start(q) + size <= p { StuckInTimeIsNotPassed(scan, keep, size, p, q); }
        WalkStuck(start, size, n, k, p);
      }
    }
  }

  // ---------------------------------------------------------------- when the loop ends

  ghost predicate Ends(table: seq<Row>, crm: bool, batchSize: nat, keep: int -> int) {
    exists n: nat :: EndsAfter(FindAll(table, crm, batchSize), keep, n)
  }

  lemma {:induction false} FindAllReadsFrom(table: seq<Row>, crm: bool, batchSize: nat)
    requires UniqueIds(table) && batchSize >= 1
    ensures ReadsFrom(FullScan(table, crm), FindAll(table, crm, batchSize), batchSize)
    ensures Increases(FullScan(table, crm))
  {
    ScanIncreases(table, crm);
    forall cursor
      ensures FindAll(table, crm, batchSize)(cursor)
           == Take(FullScan(table, crm)[Start(FullScan(table, crm), cursor)..], batchSize)
    {
      QueryFrom(table, crm, cursor, batchSize);
    }
  }

  /** The loop ends exactly when its walk over the scan halts, and then within as many batches as there are rows. */
  lemma {:induction false} EndsExactlyIfHalts(table: seq<Row>, crm: bool, batchSize: nat, keep: int -> int)
    requires UniqueIds(table) && batchSize >= 1
    ensures var scan := FullScan(table, crm);
      Ends(table, crm, batchSize, keep) <==> exists k: nat :: Halts(StartAfter(scan, keep), batchSize, |scan|, k)
  {
    var scan, findAll := FullScan(table, crm), FindAll(table, crm, batchSize);
    FindAllReadsFrom(table, crm, batchSize);
    if k: nat :| EndsAfter(findAll, keep, k) { EndsWithWalk(scan, findAll, keep, batchSize, k); }
    if k: nat :| Halts(StartAfter(scan, keep), batchSize, |scan|, k) {
      var first := FirstHalt(StartAfter(scan, keep), batchSize, |scan|, k);
      EndsWithWalk(scan, findAll, keep, batchSize, first);
    }
  }

  /** For any cursor: a loop that ends hands out no more batches than there are selected rows. */
  lemma {:induction false} EndsWithinScan(table: seq<Row>, crm: bool, batchSize: nat, keep: int -> int, n: nat)
    requires UniqueIds(table) && batchSize >= 1 && EndsAfter(FindAll(table, crm, batchSize), keep, n)
    ensures n <= |FullScan(table, crm)|
  {
    var scan, findAll := FullScan(table, crm), FindAll(table, crm, batchSize);
    FindAllReadsFrom(table, crm, batchSize);
    EndsWithWalk(scan, findAll, keep, batchSize, n);
    if scan == [] {
      assert Halts(StartAfter(scan, keep), batchSize, 0, 0);
    } else {
      HaltsSoon(StartAfter(scan, keep), batchSize, |scan|, n);
    }
  }

  /**
   Exactly, for every cursor that never rounds up: the loop ends if and only if the walk over the scan's
   positions, which a batch takes from `p` to `batchSize` past the start of what follows row `p - 1`, stands
   at the end after as many steps as there are rows, and the greatest row is kept exactly.
   */
  lemma {:induction false} EndsByWalk(table: seq<Row>, crm: bool, batchSize: nat, keep: int -> int)
    requires UniqueIds(table) && batchSize >= 1 && NeverUp(keep)
    ensures var scan := FullScan(table, crm);
      Ends(table, crm, batchSize, keep) <==>
        LastExact(scan, keep) && Walk(StartAfter(scan, keep), batchSize, |scan|, |scan|) == |scan|
  {
    var scan := FullScan(table, crm);
    FindAllReadsFrom(table, crm, batchSize);
    EndsExactlyIfHalts(table, crm, batchSize, keep);
    if n: nat :| EndsAfter(FindAll(table, crm, batchSize), keep, n) {
      EndsWithWalk(scan, FindAll(table, crm, batchSize), keep, batchSize, n);
      EndsWithinScan(table, crm, batchSize, keep, n);
      HaltedStands(scan, keep, batchSize, n);
    }
    if LastExact(scan, keep) { EndHalts(scan, keep, batchSize); }
  }

  lemma {:induction false} HaltedStands(scan: seq<Row>, keep: int -> int, size: nat, k: nat)
    requires Increases(scan) && NeverUp(keep) && k <= |scan| && Halts(StartAfter(scan, keep), size, |scan|, k)
    ensures LastExact(scan, keep) && Walk(StartAfter(scan, keep), size, |scan|, |scan|) == |scan|
  {
    HaltsAtEnd(scan, keep, size, k);
    WalkStays(StartAfter(scan, keep), size, |scan|, k, |scan|);
  }

  lemma {:induction false} EndHalts(scan: seq<Row>, keep: int -> int, size: nat)
    requires Increases(scan) && NeverUp(keep) && LastExact(scan, keep)
    ensures var start := StartAfter(scan, keep);
      Walk(start, size, |scan|, |scan|) == |scan| ==> Halts(start, size, |scan|, |scan|)
  {
    StartsBack(scan, keep, |scan|);
  }

  /** It ends if the greatest row is kept exactly and no batch that could end earlier would be stuck. */
  lemma {:induction false} EndsIf(table: seq<Row>, crm: bool, batchSize: nat, keep: int -> int)
    requires UniqueIds(table) && batchSize >= 1 && NeverUp(keep)
    requires LastExact(FullScan(table, crm), keep) && NoneStuck(FullScan(table, crm), keep, batchSize)
    ensures Ends(table, crm, batchSize, keep)
  {
    FindAllReadsFrom(table, crm, batchSize);
    HaltsIf(FullScan(table, crm), keep, batchSize);
    EndsExactlyIfHalts(table, crm, batchSize, keep);
  }

  /** It ends only if the greatest row is kept exactly and, for a monotone cursor, no such batch is stuck in time. */
  lemma {:induction false} EndsOnlyIf(table: seq<Row>, crm: bool, batchSize: nat, keep: int -> int)
    requires UniqueIds(table) && batchSize >= 1 && NeverUp(keep) && Ends(table, crm, batchSize, keep)
    ensures LastExact(FullScan(table, crm), keep)
    ensures Monotone(keep) ==> NoneStuckInTime(FullScan(table, crm), keep, batchSize)
  {
    var scan := FullScan(table, crm);
    FindAllReadsFrom(table, crm, batchSize);
    EndsExactlyIfHalts(table, crm, batchSize, keep);
    var k: nat :| Halts(StartAfter(scan, keep), batchSize, |scan|, k);
    HaltsAtEnd(scan, keep, batchSize, k);
    if Monotone(keep) { HaltsOnlyIf(scan, keep, batchSize, k); }
  }

  /** The two conditions are one unless a row sits at the very time a later row's cursor rounds to. */
  lemma {:induction false} EndsExactly(table: seq<Row>, crm: bool, batchSize: nat, keep: int -> int)
    requires UniqueIds(table) && batchSize >= 1 && NeverUp(keep) && Monotone(keep)
    requires Untied(FullScan(table, crm), keep)
    ensures Ends(table, crm, batchSize, keep) <==>
      LastExact(FullScan(table, crm), keep) && NoneStuck(FullScan(table, crm), keep, batchSize)
  {
    var scan := FullScan(table, crm);
    ScanIncreases(table, crm);
    if Ends(table, crm, batchSize, keep) {
      EndsOnlyIf(table, crm, batchSize, keep);
      forall p | 0 < p < |scan| ensures !Stuck(scan, keep, batchSize, p) {
        UntiedIsStuckInTime(scan, keep, batchSize, p);
      }
    }
    if LastExact(scan, keep) && NoneStuck(scan, keep, batchSize) { EndsIf(table, crm, batchSize, keep); }
  }

  // ---------------------------------------------------------------- three tables

  lemma {:induction false} MillisecondsRoundDown()
    ensures NeverUp(Milliseconds) && Monotone(Milliseconds)
  {}

  /** A table listed in order is its own scan. */
  lemma {:induction false} ScanOfSorted(table: seq<Row>, crm: bool)
    requires UniqueIds(table) && Sorted(RowLeq, table) && forall row | row in table :: Selected(crm, row)
    ensures FullScan(table, crm) == table
  {
    UniqueRows(table);
    Lists(table, crm, None, FullScan(table, crm));
    SortedListingsAgree(table, FullScan(table, crm), table);
  }

  lemma {:induction false} TwoRowsRepeat(a: Row, b: Row, table: seq<Row>, keep: int -> int)
    requires table == [a, b] && a.id != b.id && !RowLeq(b, a) && a.isLead && b.isLead
    requires NeverUp(keep) && Monotone(keep) && !KeptExactly(keep, a)
    ensures FullScan(table, true) == table && !Ends(table, true, 1, keep)
  {
    RowOrder();
    ScanOfSorted(table, true);
    assert StuckInTime(table, keep, 1, 1);
    if Ends(table, true, 1, keep) { EndsOnlyIf(table, true, 1, keep); }
  }

  /** The greatest row is kept exactly, and still batches of one never get past the first. */
  lemma {:induction false} EarlierRowRepeats()
    ensures var table := [Row(1001, "a", true), Row(2000, "b", true)];
      && LastExact(FullScan(table, true), Milliseconds) && !Ends(table, true, 1, Milliseconds)
  {
    var a, b := Row(1001, "a", true), Row(2000, "b", true);
    MillisecondsRoundDown();
    TwoRowsRepeat(a, b, [a, b], Milliseconds);
  }

  /** "m" sits at the very millisecond that the cursor of "a" rounds to. */
  ghost function Tied(): seq<Row> {
    [Row(500, "x", true), Row(1000, "m", true), Row(1001, "z", true), Row(1002, "a", true), Row(2000, "b", true)]
  }

  lemma {:induction false} TiedWalk(scan: seq<Row>)
    requires scan == Tied()
    ensures StartAfter(scan, Milliseconds)(3) == 2 && StartAfter(scan, Milliseconds)(5) == 5
    ensures Stuck(scan, Milliseconds, 3, 4)
  {
    var start := StartAfter(scan, Milliseconds);
    var z, b := RoundedCursor(Milliseconds, scan[2]), RoundedCursor(Milliseconds, scan[4]);
    assert !After(z, scan[0]) && !After(z, scan[1]) && After(z, scan[2]);
    assert Start(scan, z) == 2;
    assert !After(b, scan[0]) && !After(b, scan[1]) && !After(b, scan[2]) && !After(b, scan[3]) && !After(b, scan[4]);
    assert Start(scan, b) == 5;
  }

  lemma {:induction false} TiedIsSorted(scan: seq<Row>)
    requires scan == Tied()
    ensures UniqueIds(scan) && Sorted(RowLeq, scan) && forall row | row in scan :: Selected(true, row)
  {
    assert |scan| == 5;
  }

  /** A batch that would be stuck does not matter where the walk steps over it: batches of three read this table. */
  lemma {:induction false} StuckIsPassedOver()
    ensures FullScan(Tied(), true) == Tied()
    ensures !NoneStuck(Tied(), Milliseconds, 3) && Ends(Tied(), true, 3, Milliseconds)
  {
    var scan := Tied();
    TiedIsSorted(scan);
    ScanOfSorted(scan, true);
    TiedWalk(scan);
    MillisecondsRoundDown();
    assert Walk(StartAfter(scan, Milliseconds), 3, 5, 1) == 3;
    assert Walk(StartAfter(scan, Milliseconds), 3, 5, 2) == 5;
    assert Halts(StartAfter(scan, Milliseconds), 3, 5, 2);
    EndsExactlyIfHalts(scan, true, 3, Milliseconds);
  }
}
