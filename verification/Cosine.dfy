/** Cosine similarity of embedding vectors. */
module Cosine {
  import opened Wrappers
  import opened JsNumbers

  datatype VectorError = IncompatibleDimensions | NonFiniteValue | ZeroNorm

  /** The product, named so that proofs can treat it as one term. */
  function Times(x: real, y: real): real {
    x * y
  }

  ghost predicate IsSqrt(sqrt: real -> real) {
    forall x | x >= 0.0 :: sqrt(x) >= 0.0 && Times(sqrt(x), sqrt(x)) == x
  }

  ghost predicate AllFinite(v: seq<Num>) {
    forall i | 0 <= i < |v| :: v[i].Fin?
  }

  function Dot(a: seq<real>, b: seq<real>): real
    requires |a| == |b|
  {
    if a == [] then 0.0 else Dot(a[..|a| - 1], b[..|a| - 1]) + Times(a[|a| - 1], b[|a| - 1])
  }

  /** The score of two vectors, or `ZeroNorm` where the product of their norms vanishes. */
  function Score(a: seq<real>, b: seq<real>, sqrt: real -> real): Result<real, VectorError>
    requires |a| == |b|
  {
    Ratio(Dot(a, b), sqrt(Dot(a, a)), sqrt(Dot(b, b)))
  }

  function Ratio(dot: real, leftRoot: real, rightRoot: real): Result<real, VectorError> {
    var denominator := Times(leftRoot, rightRoot);
    if denominator == 0.0 then Err(ZeroNorm) else Ok(dot / denominator)
  }

  /** The finite value of each entry. */
  function Values(v: seq<Num>): (r: seq<real>) {
    seq(|v|, i requires 0 <= i < |v| => if v[i].Fin? then v[i].r else 0.0)
  }

  /** What the loop has added up over the first `i` entries, all of them finite. */
  ghost predicate Summed(left: seq<Num>, right: seq<Num>, i: nat, dot: real, leftNorm: real, rightNorm: real) {
    && i <= |left| == |right|
    && (forall j | 0 <= j < i :: left[j].Fin? && right[j].Fin?)
    && var a, b := Values(left)[..i], Values(right)[..i];
    && dot == Dot(a, b) && leftNorm == Dot(a, a) && rightNorm == Dot(b, b)
  }

  lemma {:induction false} DotGrows(a: seq<real>, b: seq<real>, i: nat)
    requires |a| == |b| && i < |a|
    ensures Dot(a[..i + 1], b[..i + 1]) == Dot(a[..i], b[..i]) + Times(a[i], b[i])
  {
    assert a[..i + 1][..i] == a[..i] && b[..i + 1][..i] == b[..i];
  }

  lemma {:induction false} SummedNext(left: seq<Num>, right: seq<Num>, i: nat, dot: real, leftNorm: real,
                                      rightNorm: real)
    requires Summed(left, right, i, dot, leftNorm, rightNorm) && i < |left| && left[i].Fin? && right[i].Fin?
    ensures
      var x, y := left[i].r, right[i].r;
      Summed(left, right, i + 1, dot + Times(x, y), leftNorm + Times(x, x), rightNorm + Times(y, y))
  {
    DotGrows(Values(left), Values(right), i);
    DotGrows(Values(left), Values(left), i);
    DotGrows(Values(right), Values(right), i);
  }

  method CosineSimilarity(left: seq<Num>, right: seq<Num>, sqrt: real -> real)
    returns (r: Result<real, VectorError>)
    ensures r == Err(IncompatibleDimensions) <==> |left| != |right| || left == []
    ensures |left| == |right| && left != [] ==>
      (r == Err(NonFiniteValue) <==> !AllFinite(left) || !AllFinite(right))
    ensures |left| == |right| && left != [] && AllFinite(left) && AllFinite(right) ==>
      r == Score(Values(left), Values(right), sqrt)
  {
    if |left| != |right| || left == [] { return Err(IncompatibleDimensions); }
    var dot, leftNorm, rightNorm := 0.0, 0.0, 0.0;
    for i := 0 to |left|
      invariant Summed(left, right, i, dot, leftNorm, rightNorm)
    {
      if !left[i].Fin? || !right[i].Fin? { return Err(NonFiniteValue); }
      SummedNext(left, right, i, dot, leftNorm, rightNorm);
      var x, y := left[i].r, right[i].r;
      dot, leftNorm, rightNorm := dot + x * y, leftNorm + x * x, rightNorm + y * y;
    }
    assert Values(left)[..|left|] == Values(left) && Values(right)[..|left|] == Values(right);
    assert leftNorm == Dot(Values(left), Values(left)) && rightNorm == Dot(Values(right), Values(right));
    return Ratio(dot, sqrt(leftNorm), sqrt(rightNorm));
  }

  // ---- Real arithmetic -----------------------------------------------------------------------

  lemma {:induction false} SquareIsNonNegative(x: real)
    ensures Times(x, x) >= 0.0
    ensures x != 0.0 ==> Times(x, x) > 0.0
  {
    SquareOfNegation(x);
    if x > 0.0 { ProductIsPositive(x, x); }
    if x < 0.0 { ProductIsPositive(-x, -x); }
  }

  lemma {:induction false} ProductIsPositive(x: real, y: real)
    requires x > 0.0 && y > 0.0
    ensures Times(x, y) > 0.0
  {}

  lemma {:induction false} ProductIsZero(x: real, y: real)
    ensures Times(x, y) == 0.0 <==> x == 0.0 || y == 0.0
  {}

  lemma {:induction false} ProductIsNonNegative(x: real, y: real)
    requires x >= 0.0 && y >= 0.0
    ensures Times(x, y) >= 0.0
  {}

  lemma {:induction false} SquareOfProduct(x: real, y: real)
    ensures Times(Times(x, y), Times(x, y)) == Times(Times(x, x), Times(y, y))
  {}

  lemma {:induction false} Commutes(x: real, y: real)
    ensures Times(x, y) == Times(y, x)
  {}

  lemma {:induction false} Associates(x: real, y: real, z: real)
    ensures Times(Times(x, y), z) == Times(x, Times(y, z))
  {}

  lemma {:induction false} Distributes(k: real, x: real, y: real)
    ensures Times(k, x + y) == Times(k, x) + Times(k, y)
  {}

  lemma {:induction false} GreaterSquare(x: real, y: real)
    ensures x > y && y >= 0.0 ==> Times(x, x) > Times(y, y)
  {
    if x > y && y >= 0.0 {
      var d := x - y;
      assert x * x == y * y + 2.0 * (y * d) + d * d;
      assert y * d >= 0.0;
      assert d * d > 0.0;
    }
  }

  lemma {:induction false} SquareOfNegation(x: real)
    ensures Times(-x, -x) == Times(x, x)
  {}

  lemma {:induction false} SquaresCompare(x: real, y: real)
    requires y >= 0.0 && Times(x, x) <= Times(y, y)
    ensures -y <= x && x <= y
  {
    GreaterSquare(x, y);
    GreaterSquare(-x, y);
    SquareOfNegation(x);
  }

  lemma {:induction false} SameSquare(x: real, y: real)
    requires x >= 0.0 && y >= 0.0 && Times(x, x) == Times(y, y)
    ensures x == y
  {
    GreaterSquare(x, y);
    GreaterSquare(y, x);
  }

  lemma {:induction false} QuotientTimes(x: real, y: real)
    requires y != 0.0
    ensures Times(x / y, y) == x
  {}

  lemma {:induction false} OutsideUnit(q: real, y: real)
    requires y > 0.0
    ensures q > 1.0 ==> Times(q, y) > y
    ensures q < -1.0 ==> Times(q, y) < -y
  {}

  lemma {:induction false} QuotientIsUnique(q: real, x: real, y: real)
    requires y != 0.0 && Times(q, y) == x
    ensures x / y == q
  {}

  // ---- Bilinearity ---------------------------------------------------------------------------

  ghost function Scaled(k: real, a: seq<real>): (r: seq<real>)
    ensures |r| == |a| && forall i | 0 <= i < |a| :: r[i] == Times(k, a[i])
  {
    seq(|a|, i requires 0 <= i < |a| => Times(k, a[i]))
  }

  lemma {:induction false} DotCommutes(a: seq<real>, b: seq<real>)
    requires |a| == |b|
    ensures Dot(a, b) == Dot(b, a)
    decreases |a|
  {
    if a != [] {
      var n := |a| - 1;
      DotCommutes(a[..n], b[..n]);
      Commutes(a[n], b[n]);
    }
  }

  lemma {:induction false} DotScales(k: real, a: seq<real>, b: seq<real>)
    requires |a| == |b|
    ensures Dot(Scaled(k, a), b) == Times(k, Dot(a, b))
    decreases |a|
  {
    if a != [] {
      var n := |a| - 1;
      ScaledPrefix(k, a);
      DotScales(k, a[..n], b[..n]);
      Associates(k, a[n], b[n]);
      Distributes(k, Dot(a[..n], b[..n]), Times(a[n], b[n]));
    }
  }

  lemma {:induction false} ScaledPrefix(k: real, a: seq<real>)
    requires a != []
    ensures Scaled(k, a)[..|a| - 1] == Scaled(k, a[..|a| - 1])
  {}

  /** A vector has norm zero exactly when it is zero throughout. */
  lemma {:induction false} NormIsZero(a: seq<real>)
    ensures Dot(a, a) >= 0.0
    ensures Dot(a, a) == 0.0 <==> forall i | 0 <= i < |a| :: a[i] == 0.0
    decreases |a|
  {
    if a != [] {
      var n := |a| - 1;
      NormIsZero(a[..n]);
      SquareIsNonNegative(a[n]);
      assert forall i | 0 <= i < n :: a[..n][i] == a[i];
    }
  }

  /** The squared length of `s * b - t * a`, added up entry by entry. */
  ghost function Residue(a: seq<real>, b: seq<real>, s: real, t: real): (r: real)
    requires |a| == |b|
    ensures r >= 0.0
  {
    if a == [] then 0.0
    else
      var n := |a| - 1;
      var d := s * b[n] - t * a[n];
      SquareIsNonNegative(d);
      Residue(a[..n], b[..n], s, t) + Times(d, d)
  }

  /** The same squared length from the three inner products. */
  ghost function Quadratic(s: real, t: real, p: real, q: real, d: real): real {
    s * s * q - 2.0 * s * t * d + t * t * p
  }

  lemma {:induction false} QuadraticOfPoint(s: real, t: real, x: real, y: real)
    ensures Times(s * y - t * x, s * y - t * x) == Quadratic(s, t, Times(x, x), Times(y, y), Times(x, y))
  {}

  lemma {:induction false} QuadraticAdds(s: real, t: real, p: real, q: real, d: real, x: real, y: real, z: real)
    ensures Quadratic(s, t, p + x, q + y, d + z) == Quadratic(s, t, p, q, d) + Quadratic(s, t, x, y, z)
  {}

  lemma {:induction false} ResidueExpands(a: seq<real>, b: seq<real>, s: real, t: real)
    requires |a| == |b|
    ensures Residue(a, b, s, t) == Quadratic(s, t, Dot(a, a), Dot(b, b), Dot(a, b))
    decreases |a|
  {
    if a != [] {
      var n := |a| - 1;
      var u, v := a[..n], b[..n];
      ResidueExpands(u, v, s, t);
      QuadraticOfPoint(s, t, a[n], b[n]);
      QuadraticAdds(s, t, Dot(u, u), Dot(v, v), Dot(u, v),
                    Times(a[n], a[n]), Times(b[n], b[n]), Times(a[n], b[n]));
    }
  }

  lemma {:induction false} ZeroVectorDot(a: seq<real>, b: seq<real>)
    requires |a| == |b| && forall i | 0 <= i < |a| :: a[i] == 0.0
    ensures Dot(a, b) == 0.0
    decreases |a|
  {
    if a != [] {
      var n := |a| - 1;
      assert forall i | 0 <= i < n :: a[..n][i] == a[i];
      ZeroVectorDot(a[..n], b[..n]);
      ProductIsZero(a[n], b[n]);
    }
  }

  lemma {:induction false} Discriminant(p: real, q: real, d: real)
    requires p > 0.0 && Quadratic(p, d, p, q, d) >= 0.0
    ensures Times(d, d) <= Times(p, q)
  {}

  lemma {:induction false} CauchySchwarz(a: seq<real>, b: seq<real>)
    requires |a| == |b|
    ensures Times(Dot(a, b), Dot(a, b)) <= Times(Dot(a, a), Dot(b, b))
  {
    NormIsZero(a);
    if Dot(a, a) == 0.0 {
      ZeroVectorDot(a, b);
    } else {
      ResidueExpands(a, b, Dot(a, a), Dot(a, b));
      Discriminant(Dot(a, a), Dot(b, b), Dot(a, b));
    }
  }

  // ---- The score -----------------------------------------------------------------------------

  lemma {:induction false} RootIsZero(sqrt: real -> real, x: real)
    requires IsSqrt(sqrt) && x >= 0.0
    ensures sqrt(x) >= 0.0 && (sqrt(x) == 0.0 <==> x == 0.0)
  {
    SquareIsNonNegative(sqrt(x));
  }

  /** A score is missing exactly when one of the vectors is zero throughout. */
  lemma {:induction false} ScoreMissing(a: seq<real>, b: seq<real>, sqrt: real -> real)
    requires |a| == |b| && IsSqrt(sqrt)
    ensures Score(a, b, sqrt).Err? <==>
      (forall i | 0 <= i < |a| :: a[i] == 0.0) || (forall i | 0 <= i < |b| :: b[i] == 0.0)
  {
    NormIsZero(a);
    NormIsZero(b);
    RootIsZero(sqrt, Dot(a, a));
    RootIsZero(sqrt, Dot(b, b));
    ProductIsZero(sqrt(Dot(a, a)), sqrt(Dot(b, b)));
  }

  lemma {:induction false} RatioInUnit(dot: real, x: real, y: real)
    requires x >= 0.0 && y >= 0.0 && Times(dot, dot) <= Times(Times(x, x), Times(y, y))
    requires Ratio(dot, x, y).Ok?
    ensures -1.0 <= Ratio(dot, x, y).value && Ratio(dot, x, y).value <= 1.0
  {
    var d := Times(x, y);
    SquareOfProduct(x, y);
    ProductIsNonNegative(x, y);
    SquaresCompare(dot, d);
    QuotientTimes(dot, d);
    OutsideUnit(dot / d, d);
  }

  lemma {:induction false} ScoreInUnit(a: seq<real>, b: seq<real>, sqrt: real -> real)
    requires |a| == |b| && IsSqrt(sqrt) && Score(a, b, sqrt).Ok?
    ensures -1.0 <= Score(a, b, sqrt).value && Score(a, b, sqrt).value <= 1.0
  {
    NormIsZero(a);
    NormIsZero(b);
    CauchySchwarz(a, b);
    RatioInUnit(Dot(a, b), sqrt(Dot(a, a)), sqrt(Dot(b, b)));
  }

  lemma {:induction false} RatioCommutes(dot: real, x: real, y: real)
    ensures Ratio(dot, x, y) == Ratio(dot, y, x)
  {}

  /** The order of the two vectors does not matter. */
  lemma {:induction false} ScoreCommutes(a: seq<real>, b: seq<real>, sqrt: real -> real)
    requires |a| == |b|
    ensures Score(a, b, sqrt) == Score(b, a, sqrt)
  {
    DotCommutes(a, b);
    RatioCommutes(Dot(a, b), sqrt(Dot(a, a)), sqrt(Dot(b, b)));
  }

  lemma {:induction false} RootOfScaled(sqrt: real -> real, k: real, x: real)
    requires IsSqrt(sqrt) && k > 0.0 && x >= 0.0
    ensures sqrt(Times(k, Times(k, x))) == Times(k, sqrt(x))
  {
    ProductIsNonNegative(k, x);
    ProductIsNonNegative(k, Times(k, x));
    ProductIsNonNegative(k, sqrt(x));
    SquareOfProduct(k, sqrt(x));
    Associates(k, k, x);
    SameSquare(sqrt(Times(k, Times(k, x))), Times(k, sqrt(x)));
  }

  lemma {:induction false} RatioIgnoresScale(k: real, dot: real, x: real, y: real)
    requires k > 0.0
    ensures Ratio(Times(k, dot), Times(k, x), y) == Ratio(dot, x, y)
  {
    var d := Times(x, y);
    Associates(k, x, y);
    ProductIsZero(k, d);
    if d != 0.0 {
      var q := dot / d;
      QuotientTimes(dot, d);
      Associates(q, k, d);
      Associates(k, q, d);
      Commutes(q, k);
      QuotientIsUnique(q, Times(k, dot), Times(k, d));
    }
  }

  lemma {:induction false} LeftScale(k: real, a: seq<real>, b: seq<real>, sqrt: real -> real)
    requires |a| == |b| && IsSqrt(sqrt) && k > 0.0
    ensures Score(Scaled(k, a), b, sqrt) == Score(a, b, sqrt)
  {
    var s := Scaled(k, a);
    DotScales(k, a, b);
    DotScales(k, a, s);
    DotCommutes(a, s);
    DotScales(k, a, a);
    NormIsZero(a);
    RootOfScaled(sqrt, k, Dot(a, a));
    RatioIgnoresScale(k, Dot(a, b), sqrt(Dot(a, a)), sqrt(Dot(b, b)));
  }

  /** Scaling a vector by a positive factor leaves the score, or its absence, as it was. */
  lemma {:induction false} ScoreIgnoresScale(k: real, a: seq<real>, b: seq<real>, sqrt: real -> real)
    requires |a| == |b| && IsSqrt(sqrt) && k > 0.0
    ensures Score(Scaled(k, a), b, sqrt) == Score(a, b, sqrt)
    ensures Score(a, Scaled(k, b), sqrt) == Score(a, b, sqrt)
  {
    LeftScale(k, a, b, sqrt);
    LeftScale(k, b, a, sqrt);
    ScoreCommutes(a, Scaled(k, b), sqrt);
    ScoreCommutes(a, b, sqrt);
  }

  /** A vector scores 1 against itself. */
  lemma {:induction false} ScoreOfItself(a: seq<real>, sqrt: real -> real)
    requires IsSqrt(sqrt) && Score(a, a, sqrt).Ok?
    ensures Score(a, a, sqrt).value == 1.0
  {
    NormIsZero(a);
    QuotientIsUnique(1.0, Dot(a, a), Times(sqrt(Dot(a, a)), sqrt(Dot(a, a))));
  }

  // ---- What fixes the score ------------------------------------------------------------------

  /** The Euclidean norm. */
  ghost function Norm(a: seq<real>, sqrt: real -> real): real {
    sqrt(SquareSum(a))
  }

  ghost function SquareSum(a: seq<real>): real {
    if a == [] then 0.0 else Times(a[0], a[0]) + SquareSum(a[1..])
  }

  lemma {:induction false} SquareSumGrows(a: seq<real>, x: real)
    ensures SquareSum(a + [x]) == SquareSum(a) + Times(x, x)
    decreases |a|
  {
    if a != [] {
      assert (a + [x])[1..] == a[1..] + [x];
      SquareSumGrows(a[1..], x);
    } else {
      assert (a + [x])[1..] == [];
    }
  }

  lemma {:induction false} SquareSumIsDot(a: seq<real>)
    ensures SquareSum(a) == Dot(a, a)
    decreases |a|
  {
    if a != [] {
      var n := |a| - 1;
      assert a == a[..n] + [a[n]];
      SquareSumIsDot(a[..n]);
      SquareSumGrows(a[..n], a[n]);
    }
  }

  /** The score times both norms, and zero where there is no score. */
  ghost function Unscaled(a: seq<real>, b: seq<real>, sqrt: real -> real): real
    requires |a| == |b|
  {
    match Score(a, b, sqrt)
    case Err(_) => 0.0
    case Ok(score) => Times(score, Times(Norm(a, sqrt), Norm(b, sqrt)))
  }

  lemma {:induction false} UnscaledIsDot(a: seq<real>, b: seq<real>, sqrt: real -> real)
    requires |a| == |b| && IsSqrt(sqrt)
    ensures Unscaled(a, b, sqrt) == Dot(a, b)
  {
    SquareSumIsDot(a);
    SquareSumIsDot(b);
    ScoreMissing(a, b, sqrt);
    if Score(a, b, sqrt).Err? {
      if forall i | 0 <= i < |a| :: a[i] == 0.0 {
        ZeroVectorDot(a, b);
      } else {
        ZeroVectorDot(b, a);
        DotCommutes(a, b);
      }
    } else {
      QuotientTimes(Dot(a, b), Times(Norm(a, sqrt), Norm(b, sqrt)));
    }
  }

  ghost function Plus(a: seq<real>, b: seq<real>): (r: seq<real>)
    requires |a| == |b|
    ensures |r| == |a| && forall i | 0 <= i < |a| :: r[i] == a[i] + b[i]
  {
    seq(|a|, i requires 0 <= i < |a| => a[i] + b[i])
  }

  lemma {:induction false} DotAdds(a: seq<real>, c: seq<real>, b: seq<real>)
    requires |a| == |c| == |b|
    ensures Dot(Plus(a, c), b) == Dot(a, b) + Dot(c, b)
    decreases |a|
  {
    if a != [] {
      var n := |a| - 1;
      assert Plus(a, c)[..n] == Plus(a[..n], c[..n]);
      DotAdds(a[..n], c[..n], b[..n]);
      Commutes(a[n] + c[n], b[n]);
      Distributes(b[n], a[n], c[n]);
      Commutes(a[n], b[n]);
      Commutes(c[n], b[n]);
    }
  }

  /** Times both norms, the score is additive in each of the vectors. */
  lemma {:induction false} ScoreIsAdditive(a: seq<real>, c: seq<real>, b: seq<real>, sqrt: real -> real)
    requires |a| == |c| == |b| && IsSqrt(sqrt)
    ensures Unscaled(Plus(a, c), b, sqrt) == Unscaled(a, b, sqrt) + Unscaled(c, b, sqrt)
    ensures Unscaled(b, Plus(a, c), sqrt) == Unscaled(b, a, sqrt) + Unscaled(b, c, sqrt)
  {
    DotAdds(a, c, b);
    DotCommutes(Plus(a, c), b);
    DotCommutes(a, b);
    DotCommutes(c, b);
    UnscaledIsDot(Plus(a, c), b, sqrt);
    UnscaledIsDot(a, b, sqrt);
    UnscaledIsDot(c, b, sqrt);
    UnscaledIsDot(b, Plus(a, c), sqrt);
    UnscaledIsDot(b, a, sqrt);
    UnscaledIsDot(b, c, sqrt);
  }

  ghost function Negated(r: Result<real, VectorError>): Result<real, VectorError> {
    match r
    case Ok(score) => Ok(-score)
    case Err(e) => Err(e)
  }

  lemma {:induction false} MinusOnce(x: real)
    ensures Times(-1.0, x) == -x
  {}

  lemma {:induction false} RatioNegates(dot: real, x: real, y: real)
    ensures Ratio(-dot, x, y) == Negated(Ratio(dot, x, y))
  {
    var d := Times(x, y);
    if d != 0.0 {
      QuotientTimes(dot, d);
      Associates(-1.0, dot / d, d);
      MinusOnce(dot / d);
      MinusOnce(dot);
      QuotientIsUnique(-(dot / d), -dot, d);
    }
  }

  lemma {:induction false} OppositeScore(a: seq<real>, b: seq<real>, sqrt: real -> real)
    requires |a| == |b|
    ensures Score(Scaled(-1.0, a), b, sqrt) == Negated(Score(a, b, sqrt))
  {
    var s := Scaled(-1.0, a);
    DotScales(-1.0, a, b);
    DotScales(-1.0, a, s);
    DotCommutes(a, s);
    DotScales(-1.0, a, a);
    MinusOnce(Dot(a, b));
    MinusOnce(Dot(a, a));
    MinusOnce(-Dot(a, a));
    RatioNegates(Dot(a, b), sqrt(Dot(a, a)), sqrt(Dot(b, b)));
  }

  lemma {:induction false} ScaledTwice(k: real, a: seq<real>)
    ensures Scaled(k, a) == Scaled(-1.0, Scaled(-k, a))
  {
    forall i | 0 <= i < |a| ensures Scaled(k, a)[i] == Scaled(-1.0, Scaled(-k, a))[i] {
      MinusOnce(Times(-k, a[i]));
      Associates(-1.0, -k, a[i]);
      MinusOnce(-k);
    }
  }

  /** A negative factor on either vector turns the score round. */
  lemma {:induction false} NegativeScaleNegates(k: real, a: seq<real>, b: seq<real>, sqrt: real -> real)
    requires |a| == |b| && IsSqrt(sqrt) && k < 0.0
    ensures Score(Scaled(k, a), b, sqrt) == Negated(Score(a, b, sqrt))
    ensures Score(a, Scaled(k, b), sqrt) == Negated(Score(a, b, sqrt))
  {
    ScaledTwice(k, a);
    OppositeScore(Scaled(-k, a), b, sqrt);
    LeftScale(-k, a, b, sqrt);
    ScaledTwice(k, b);
    OppositeScore(Scaled(-k, b), a, sqrt);
    LeftScale(-k, b, a, sqrt);
    ScoreCommutes(a, Scaled(k, b), sqrt);
    ScoreCommutes(a, b, sqrt);
  }

  /** The vector of `n` entries with a one at `i` and zeroes elsewhere. */
  ghost function Unit(n: nat, i: nat): (r: seq<real>)
    requires i < n
    ensures |r| == n && forall k | 0 <= k < n :: r[k] == if k == i then 1.0 else 0.0
  {
    seq(n, k requires 0 <= k < n => if k == i then 1.0 else 0.0)
  }

  lemma {:induction false} UnitsDot(n: nat, i: nat, j: nat)
    requires i < n && j < n
    ensures Dot(Unit(n, i), Unit(n, j)) == if i == j then 1.0 else 0.0
    decreases n
  {
    var a, b := Unit(n, i), Unit(n, j);
    if i < n - 1 && j < n - 1 {
      assert a[..n - 1] == Unit(n - 1, i) && b[..n - 1] == Unit(n - 1, j);
      UnitsDot(n - 1, i, j);
    } else if i == n - 1 {
      ZeroVectorDot(a[..n - 1], b[..n - 1]);
    } else {
      ZeroVectorDot(b[..n - 1], a[..n - 1]);
      DotCommutes(a[..n - 1], b[..n - 1]);
    }
  }

  /** Unit vectors score 1 with themselves and 0 with each other, in every dimension. */
  lemma {:induction false} UnitScores(n: nat, i: nat, j: nat, sqrt: real -> real)
    requires i < n && j < n && IsSqrt(sqrt)
    ensures Score(Unit(n, i), Unit(n, j), sqrt) == Ok(if i == j then 1.0 else 0.0)
  {
    UnitsDot(n, i, j);
    UnitsDot(n, i, i);
    UnitsDot(n, j, j);
    SameSquare(sqrt(1.0), 1.0);
  }

  /** Numbers other than zero, taken as vectors of one entry, score the sign of their product. */
  lemma {:induction false} SingleEntries(x: real, y: real, sqrt: real -> real)
    requires IsSqrt(sqrt) && x != 0.0 && y != 0.0
    ensures Score([x], [y], sqrt) == Ok(if x > 0.0 <==> y > 0.0 then 1.0 else -1.0)
  {
    SingleDot(x, y);
    SingleDot(x, x);
    SingleDot(y, y);
    RootOfSquare(sqrt, x);
    RootOfSquare(sqrt, y);
    var size := Times(Abs(x), Abs(y));
    ProductIsZero(Abs(x), Abs(y));
    ProductOfSizes(x, y);
    QuotientIsUnique(if x > 0.0 <==> y > 0.0 then 1.0 else -1.0, Times(x, y), size);
  }

  ghost function Abs(x: real): real {
    if x < 0.0 then -x else x
  }

  lemma {:induction false} SingleDot(x: real, y: real)
    ensures Dot([x], [y]) == Times(x, y)
  {
    assert [x][..0] == [] && [y][..0] == [];
  }

  lemma {:induction false} RootOfSquare(sqrt: real -> real, x: real)
    requires IsSqrt(sqrt)
    ensures sqrt(Times(x, x)) == Abs(x)
  {
    SquareIsNonNegative(x);
    SquareOfNegation(x);
    SameSquare(sqrt(Times(x, x)), Abs(x));
  }

  lemma {:induction false} ProductOfSizes(x: real, y: real)
    requires x != 0.0 && y != 0.0
    ensures Times(if x > 0.0 <==> y > 0.0 then 1.0 else -1.0, Times(Abs(x), Abs(y))) == Times(x, y)
  {}
}
