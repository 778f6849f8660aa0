/** Ranges and percentiles of the scores in a calibration summary. */
module Distributions {
  import opened Wrappers
  import opened JsNumbers
  import opened Sorting
  import opened Percentiles
  import opened Acceptance

  /** None throughout where there are no values. */
  datatype Range = Range(min: Option<real>, median: Option<real>, max: Option<real>)

  datatype Distribution = Distribution(
    expectedScore: Range, top1Margin: Range, negativeTopScore: Range,
    p50: Option<real>, p90: Option<real>, p95: Option<real>, observedGap: Option<real>)

  function Minimum(values: seq<real>): (m: real)
    requires values != []
    ensures m in values && forall v | v in values :: m <= v
  {
    if |values| == 1 then values[0]
    else
      var rest := Minimum(values[1..]);
      assert values == [values[0]] + values[1..];
      if rest < values[0] then rest else values[0]
  }

  function RangeOf(values: seq<real>): Range {
    if values == [] then Range(None, None, None)
    else Range(Some(Minimum(values)), Percentile(values, 0.5), Some(Maximum(values)))
  }

  /** `Number.isFinite` drops null as well, which `FiniteScores` keeps as zero. */
  function FiniteOnly(fields: seq<Field>): seq<real> {
    if fields == [] then []
    else (if fields[0].Number? && fields[0].n.Fin? then [fields[0].n.r] else []) + FiniteOnly(fields[1..])
  }

  function Distribute(expected: seq<Field>, margins: seq<Field>, tops: seq<Field>): Distribution {
    var scores, negatives := FiniteOnly(expected), FiniteOnly(tops);
    Distribution(
      RangeOf(scores), RangeOf(FiniteOnly(margins)), RangeOf(negatives),
      Percentile(negatives, 0.5), Percentile(negatives, 0.9), Percentile(negatives, 0.95),
      GapBetween(scores, negatives))
  }

  function GapBetween(scores: seq<real>, negatives: seq<real>): Option<real> {
    if scores != [] && negatives != [] then Some(Minimum(scores) - Maximum(negatives)) else None
  }

  /** The ends of the scale are the least and the greatest value. */
  lemma {:induction false} EndsAreExtremes(values: seq<real>)
    requires values != []
    ensures Percentile(values, 0.0) == Some(Minimum(values)) && Percentile(values, 1.0) == Some(Maximum(values))
  {
    MonotoneAndBounded(values, 0.0, 1.0);
  }

  lemma {:induction false} PercentileInRange(values: seq<real>, fraction: real)
    requires values != [] && 0.0 <= fraction <= 1.0
    ensures Minimum(values) <= Percentile(values, fraction).value <= Maximum(values)
  {
    EndsAreExtremes(values);
    MonotoneAndBounded(values, 0.0, fraction);
    MonotoneAndBounded(values, fraction, 1.0);
  }

  /** A range is in order, and so are the percentiles of the negatives within theirs. */
  lemma {:induction false} DistributionIsOrdered(expected: seq<Field>, margins: seq<Field>, tops: seq<Field>)
    ensures
      var d := Distribute(expected, margins, tops);
      && forall range | range in {d.expectedScore, d.top1Margin, d.negativeTopScore} ::
           && (range.min.Some? <==> range.max.Some?) && (range.min.Some? <==> range.median.Some?)
           && (range.min.Some? ==> range.min.value <= range.median.value && range.median.value <= range.max.value)
    ensures
      var d := Distribute(expected, margins, tops);
      d.p50.Some? ==>
        && d.p50 == d.negativeTopScore.median && d.p90.Some? && d.p95.Some?
        && d.p50.value <= d.p90.value && d.p90.value <= d.p95.value && d.p95.value <= d.negativeTopScore.max.value
  {
    RangeIsOrdered(FiniteOnly(expected));
    RangeIsOrdered(FiniteOnly(margins));
    RangeIsOrdered(FiniteOnly(tops));
    var negatives := FiniteOnly(tops);
    if negatives != [] {
      MonotoneAndBounded(negatives, 0.5, 0.9);
      MonotoneAndBounded(negatives, 0.9, 0.95);
      PercentileInRange(negatives, 0.95);
    }
  }

  lemma {:induction false} RangeIsOrdered(values: seq<real>)
    ensures
      var range := RangeOf(values);
      && (range.min.Some? <==> range.max.Some?) && (range.min.Some? <==> range.median.Some?)
      && (range.min.Some? ==> range.min.value <= range.median.value && range.median.value <= range.max.value)
  {
    if values != [] { PercentileInRange(values, 0.5); }
  }

  lemma {:induction false} FiniteOnlyOfFinite(fields: seq<Field>)
    requires forall i | 0 <= i < |fields| :: fields[i].Number? && fields[i].n.Fin?
    ensures FiniteOnly(fields) == FiniteScores(fields) && |FiniteOnly(fields)| == |fields|
    decreases |fields|
  {
    if fields != [] {
      assert fields[0].Number?;
      FiniteOnlyOfFinite(fields[1..]);
    }
  }

  // ---- What a summary reads ------------------------------------------------------------------

  /** How many fields hold the number `x`. */
  ghost function Holding(fields: seq<Field>, x: real): nat {
    if fields == [] then 0 else Holding(fields[1..], x) + if fields[0] == Number(Fin(x)) then 1 else 0
  }

  /** A rising listing of the finite numbers among the fields. */
  ghost predicate RisingNumbers(fields: seq<Field>, s: seq<real>) {
    Increasing(s) && forall x :: multiset(s)[x] == Holding(fields, x)
  }

  lemma {:induction false} FiniteOnlyCount(fields: seq<Field>, x: real)
    ensures multiset(FiniteOnly(fields))[x] == Holding(fields, x)
    decreases |fields|
  {
    if fields != [] { FiniteOnlyCount(fields[1..], x); }
  }

  lemma {:induction false} RisingNumbersAre(fields: seq<Field>, s: seq<real>)
    requires RisingNumbers(fields, s)
    ensures multiset(s) == multiset(FiniteOnly(fields)) && |s| == |FiniteOnly(fields)|
  {
    forall x: real ensures multiset(s)[x] == multiset(FiniteOnly(fields))[x] {
      FiniteOnlyCount(fields, x);
    }
    SameMultiset(s, FiniteOnly(fields));
  }

  /** What a rising listing holds at a fraction of its length less one. */
  ghost predicate HoldsAt(s: seq<real>, fraction: real, v: Option<real>)
    requires 0.0 <= fraction <= 1.0
  {
    if s == [] then v == None else v == Some(At(s, Position(|s|, fraction)))
  }

  lemma {:induction false} PercentileHolds(fields: seq<Field>, s: seq<real>, fraction: real)
    requires RisingNumbers(fields, s) && 0.0 <= fraction <= 1.0
    ensures HoldsAt(s, fraction, Percentile(FiniteOnly(fields), fraction))
  {
    RisingNumbersAre(fields, s);
    SortedIsAscending(FiniteOnly(fields), s);
  }

  /** The ends of a rising listing and its middle, and nothing where it is empty. */
  ghost predicate Spans(range: Range, s: seq<real>) {
    && range.min == (if s == [] then None else Some(s[0]))
    && HoldsAt(s, 0.5, range.median)
    && range.max == (if s == [] then None else Some(s[|s| - 1]))
  }

  /** The least and the greatest of the values, where there are any. */
  ghost predicate HasEnds(values: seq<real>, s: seq<real>) {
    && (s == [] <==> values == [])
    && (s != [] && values != [] ==> Minimum(values) == s[0] && Maximum(values) == s[|s| - 1])
  }

  lemma {:induction false} EndsAreListed(fields: seq<Field>, s: seq<real>)
    requires RisingNumbers(fields, s)
    ensures HasEnds(FiniteOnly(fields), s)
  {
    RisingNumbersAre(fields, s);
    if s != [] { EndsOfListing(FiniteOnly(fields), s); }
  }

  lemma {:induction false} EndsOfListing(values: seq<real>, s: seq<real>)
    requires s != [] && values != [] && Increasing(s) && multiset(s) == multiset(values)
    ensures Minimum(values) == s[0] && Maximum(values) == s[|s| - 1]
  {
    SameMultiset(s, values);
    assert s[0] in values && s[|s| - 1] in values;
    var i :| 0 <= i < |s| && s[i] == Minimum(values);
    var j :| 0 <= j < |s| && s[j] == Maximum(values);
  }

  lemma {:induction false} RangeSpans(fields: seq<Field>, s: seq<real>)
    requires RisingNumbers(fields, s)
    ensures Spans(RangeOf(FiniteOnly(fields)), s)
  {
    RisingNumbersAre(fields, s);
    PercentileHolds(fields, s, 0.5);
    EndsAreListed(fields, s);
  }

  /** Each range spans the finite numbers of its own fields. */
  lemma {:induction false} RangesSpan(expected: seq<Field>, margins: seq<Field>, tops: seq<Field>, s: seq<real>)
    ensures RisingNumbers(expected, s) ==> Spans(Distribute(expected, margins, tops).expectedScore, s)
    ensures RisingNumbers(margins, s) ==> Spans(Distribute(expected, margins, tops).top1Margin, s)
    ensures RisingNumbers(tops, s) ==> Spans(Distribute(expected, margins, tops).negativeTopScore, s)
  {
    if RisingNumbers(expected, s) { RangeSpans(expected, s); }
    if RisingNumbers(margins, s) { RangeSpans(margins, s); }
    if RisingNumbers(tops, s) { RangeSpans(tops, s); }
  }

  /** The percentiles are what a rising listing of the negatives holds at 0.5, 0.9 and 0.95. */
  lemma {:induction false} PercentilesHold(expected: seq<Field>, margins: seq<Field>, tops: seq<Field>, t: seq<real>)
    requires RisingNumbers(tops, t)
    ensures HoldsAt(t, 0.5, Distribute(expected, margins, tops).p50)
    ensures HoldsAt(t, 0.9, Distribute(expected, margins, tops).p90)
    ensures HoldsAt(t, 0.95, Distribute(expected, margins, tops).p95)
  {
    PercentileHolds(tops, t, 0.5);
    PercentileHolds(tops, t, 0.9);
    PercentileHolds(tops, t, 0.95);
  }

  /** The gap is from the greatest negative to the least positive. */
  lemma {:induction false} GapReads(expected: seq<Field>, margins: seq<Field>, tops: seq<Field>,
                                    s: seq<real>, t: seq<real>)
    requires RisingNumbers(expected, s) && RisingNumbers(tops, t)
    ensures Distribute(expected, margins, tops).observedGap ==
            if s != [] && t != [] then Some(s[0] - t[|t| - 1]) else None
  {
    EndsAreListed(expected, s);
    EndsAreListed(tops, t);
    GapSpans(FiniteOnly(expected), FiniteOnly(tops), s, t);
  }

  lemma {:induction false} GapSpans(scores: seq<real>, negatives: seq<real>, s: seq<real>, t: seq<real>)
    requires HasEnds(scores, s) && HasEnds(negatives, t)
    ensures GapBetween(scores, negatives) == if s != [] && t != [] then Some(s[0] - t[|t| - 1]) else None
  {}
}
