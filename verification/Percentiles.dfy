/** The interpolated percentile of the calibration scripts, over reals. */
module Percentiles {
  import opened Wrappers
  import opened Sorting

  predicate RealLeq(a: real, b: real) {
    a <= b
  }

  function Ascending(values: seq<real>): seq<real> {
    Sort(RealLeq, values)
  }

  function Ceil(x: real): int {
    -((-x).Floor)
  }

  function Interpolate(low: real, high: real, t: real): real {
    low + (high - low) * t
  }

  lemma {:induction false} CeilIsNear(x: real)
    ensures x.Floor as real <= x && x < x.Floor as real + 1.0
    ensures Ceil(x) == if x == x.Floor as real then x.Floor else x.Floor + 1
  {}

  /** The value at a real position of a sorted list, linear between neighbours. */
  function At(sorted: seq<real>, x: real): real
    requires 0.0 <= x && x <= (|sorted| - 1) as real
  {
    CeilIsNear(x);
    var lower, upper := x.Floor, Ceil(x);
    if lower == upper then sorted[lower] else Interpolate(sorted[lower], sorted[upper], x - lower as real)
  }

  /** The position of a fraction among `n` sorted values. */
  function Position(n: nat, fraction: real): (x: real)
    requires n > 0 && 0.0 <= fraction <= 1.0
    ensures 0.0 <= x && x <= (n - 1) as real
  {
    (n - 1) as real * fraction
  }

  /** None stands for `null`, the percentile of nothing. */
  function Percentile(values: seq<real>, fraction: real): Option<real>
    requires 0.0 <= fraction <= 1.0
  {
    if values == [] then None
    else Some(At(Ascending(values), Position(|values|, fraction)))
  }

  ghost predicate Increasing(s: seq<real>) {
    forall i, j | 0 <= i <= j < |s| :: s[i] <= s[j]
  }

  lemma {:induction false} SortedIncreases(values: seq<real>)
    ensures Increasing(Ascending(values))
  {
    SortSorts(RealLeq, values);
  }

  /** The order of the values cannot matter. */
  lemma {:induction false} DependsOnMultiset(a: seq<real>, b: seq<real>, fraction: real)
    requires multiset(a) == multiset(b) && 0.0 <= fraction <= 1.0
    ensures Percentile(a, fraction) == Percentile(b, fraction)
  {
    SameMultiset(a, b);
    SortDependsOnMultiset(RealLeq, a, b);
  }

  /** A value between neighbours lies between them. */
  lemma {:induction false} Between(low: real, high: real, t: real)
    requires low <= high && 0.0 <= t && t <= 1.0
    ensures low <= Interpolate(low, high, t) && Interpolate(low, high, t) <= high
  {
    FurtherIsHigher(low, high, 0.0, t);
    FurtherIsHigher(low, high, t, 1.0);
  }

  lemma {:induction false} FurtherIsHigher(low: real, high: real, t: real, u: real)
    requires low <= high && t <= u
    ensures Interpolate(low, high, t) <= Interpolate(low, high, u)
  {}

  lemma {:induction false} AtIsBetween(s: seq<real>, x: real)
    requires Increasing(s) && 0.0 <= x && x <= (|s| - 1) as real
    ensures 0 <= x.Floor <= Ceil(x) < |s|
    ensures s[x.Floor] <= At(s, x) && At(s, x) <= s[Ceil(x)]
  {
    CeilIsNear(x);
    if x.Floor != Ceil(x) { Between(s[x.Floor], s[Ceil(x)], x - x.Floor as real); }
  }

  lemma {:induction false} AtIncreases(s: seq<real>, x: real, y: real)
    requires Increasing(s) && 0.0 <= x && x <= y && y <= (|s| - 1) as real
    ensures At(s, x) <= At(s, y)
  {
    CeilIsNear(x);
    CeilIsNear(y);
    AtIsBetween(s, x);
    AtIsBetween(s, y);
    if x.Floor != y.Floor {
      assert Ceil(x) <= y.Floor;
    } else if x != x.Floor as real {
      FurtherIsHigher(s[x.Floor], s[Ceil(x)], x - x.Floor as real, y - x.Floor as real);
    }
  }

  /** At whole positions the value there; between two of them a straight line from one to the other. */
  lemma {:induction false} StraightBetween(s: seq<real>, k: nat, x: real, y: real)
    requires k + 1 < |s| && k as real <= x && x <= y && y <= k as real + 1.0
    ensures At(s, k as real) == s[k] && At(s, k as real + 1.0) == s[k + 1]
    ensures At(s, y) - At(s, x) == (y - x) * (s[k + 1] - s[k])
  {
    OnLine(s, k, k as real);
    OnLine(s, k, k as real + 1.0);
    OnLine(s, k, x);
    OnLine(s, k, y);
    StepsOnLine(s[k], s[k + 1] - s[k], x - k as real, y - k as real);
  }

  lemma {:induction false} OnLine(s: seq<real>, k: nat, x: real)
    requires k + 1 < |s| && k as real <= x && x <= k as real + 1.0
    ensures At(s, x) == Interpolate(s[k], s[k + 1], x - k as real)
  {
    CeilIsNear(x);
    if x == k as real + 1.0 { assert x.Floor == k + 1; }
  }

  lemma {:induction false} StepsOnLine(low: real, rise: real, t: real, u: real)
    ensures Interpolate(low, low + rise, u) - Interpolate(low, low + rise, t) == (u - t) * rise
  {}

  lemma {:induction false} PositionIncreases(n: nat, low: real, high: real)
    requires n > 0 && 0.0 <= low && low <= high && high <= 1.0
    ensures Position(n, low) <= Position(n, high)
    ensures Position(n, 0.0) == 0.0 && Position(n, 1.0) == (n - 1) as real
  {
    FurtherIsHigher(0.0, (n - 1) as real, low, high);
  }

  /** Monotone in the fraction, and never outside the values. */
  lemma {:induction false} MonotoneAndBounded(values: seq<real>, low: real, high: real)
    requires values != [] && 0.0 <= low && low <= high && high <= 1.0
    ensures Percentile(values, low).value <= Percentile(values, high).value
    ensures Percentile(values, 0.0).value in values && Percentile(values, 1.0).value in values
    ensures forall v | v in values :: Percentile(values, 0.0).value <= v && v <= Percentile(values, 1.0).value
  {
    var s := Ascending(values);
    SortedIncreases(values);
    PositionIncreases(|values|, low, high);
    AtIncreases(s, Position(|values|, low), Position(|values|, high));
    EndsOfScale(s);
    forall v | v in values ensures s[0] <= v && v <= s[|s| - 1] {
      var i :| 0 <= i < |s| && s[i] == v;
    }
  }

  lemma {:induction false} EndsOfScale(s: seq<real>)
    requires s != []
    ensures At(s, 0.0) == s[0] && At(s, (|s| - 1) as real) == s[|s| - 1]
  {}

  ghost function Below(x: real): real -> bool {
    v => v < x
  }

  /** At most ceil((n - 1) * fraction) of the values lie strictly below the percentile. */
  lemma {:induction false} FewBelow(values: seq<real>, fraction: real)
    requires values != [] && 0.0 <= fraction <= 1.0
    ensures Count(Below(Percentile(values, fraction).value), values) <= Ceil(Position(|values|, fraction))
  {
    var s, x := Ascending(values), Position(|values|, fraction);
    SortedIncreases(values);
    AtIsBetween(s, x);
    CountOfPrefix(Below(At(s, x)), s, Ceil(x));
    CountOfSort(RealLeq, Below(At(s, x)), values);
  }

  lemma {:induction false} SortedIsAscending(values: seq<real>, s: seq<real>)
    requires Increasing(s) && multiset(s) == multiset(values)
    ensures s == Ascending(values) && |s| == |values|
  {
    SameMultiset(s, values);
    SortedIncreases(values);
    SortedUnique(RealLeq, s, Ascending(values));
  }

  /** A percentile is what any listing of the values in rising order holds at (n - 1) times the fraction. */
  lemma {:induction false} PercentileIsAt(values: seq<real>, fraction: real, s: seq<real>, n: nat, x: real)
    requires 0.0 <= fraction <= 1.0 && |s| == n > 0 && x == (n - 1) as real * fraction
    requires Increasing(s) && multiset(s) == multiset(values)
    ensures 0.0 <= x && x <= (n - 1) as real && Percentile(values, fraction) == Some(At(s, x))
  {
    SortedIsAscending(values, s);
    PositionIs(n, fraction, x);
    PercentileAtPosition(values, fraction, n, x);
  }

  lemma {:induction false} PositionIs(n: nat, fraction: real, x: real)
    requires n > 0 && 0.0 <= fraction <= 1.0 && x == (n - 1) as real * fraction
    ensures 0.0 <= x && x <= (n - 1) as real && x == Position(n, fraction)
  {
    var p := Position(n, fraction);
  }

  lemma {:induction false} PercentileAtPosition(values: seq<real>, fraction: real, n: nat, x: real)
    requires 0.0 <= fraction <= 1.0 && |values| == n > 0 && x == Position(n, fraction)
    ensures Percentile(values, fraction) == Some(At(Ascending(values), x))
  {}
}
