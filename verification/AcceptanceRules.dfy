/**
 What the acceptance rules answer, told from the fields of the evidence and of the contract themselves: the
 numbers and the status of a derivation, the contracts that are accepted, and the verdicts under a contract.
 */
module AcceptanceRules {
  import opened Wrappers
  import opened JsNumbers
  import opened Sorting
  import opened Percentiles
  import opened Acceptance

  /** The finite number a field counts as; null counts as zero. */
  ghost function Finite(f: Field): Option<real> {
    match f
    case Undefined => None
    case Null => Some(0.0)
    case Number(Fin(x)) => Some(x)
    case Number(_) => None
  }

  lemma {:induction false} FiniteIsConverted(f: Field)
    ensures Finite(f).Some? <==> IsFinite(f)
    ensures Finite(f).Some? ==> ToNumber(f) == Fin(Finite(f).value)
  {}

  // ---- The numbers of a derivation -----------------------------------------------------------

  ghost predicate IsNegative(negatives: seq<NegativeEvidence>, x: real) {
    exists i | 0 <= i < |negatives| :: Finite(negatives[i].topScore) == Some(x)
  }

  /** How many positives score `x`. */
  ghost function Scoring(positives: seq<PositiveEvidence>, x: real): nat {
    if positives == [] then 0
    else Scoring(positives[1..], x) + if Finite(positives[0].expectedScore) == Some(x) then 1 else 0
  }

  /** A rising listing of the finite scores of the positives. */
  ghost predicate RisingScores(positives: seq<PositiveEvidence>, s: seq<real>) {
    Increasing(s) && forall x :: multiset(s)[x] == Scoring(positives, x)
  }

  ghost predicate WholeThousandths(x: real) {
    x * 1000.0 == (x * 1000.0).Floor as real
  }

  lemma {:induction false} FiniteScoresAre(fields: seq<Field>, x: real)
    ensures x in FiniteScores(fields) <==> exists i | 0 <= i < |fields| :: Finite(fields[i]) == Some(x)
    decreases |fields|
  {
    if fields != [] {
      FiniteIsConverted(fields[0]);
      FiniteScoresAre(fields[1..], x);
      assert forall i | 1 <= i < |fields| :: fields[i] == fields[1..][i - 1];
      if Finite(fields[0]) != Some(x) && exists i | 0 <= i < |fields| :: Finite(fields[i]) == Some(x) {
        var i :| 0 <= i < |fields| && Finite(fields[i]) == Some(x);
        assert Finite(fields[1..][i - 1]) == Some(x);
      }
    }
  }

  lemma {:induction false} FiniteScoresCount(positives: seq<PositiveEvidence>, x: real)
    ensures multiset(FiniteScores(PositiveFields(positives)))[x] == Scoring(positives, x)
    decreases |positives|
  {
    var fields := PositiveFields(positives);
    if positives != [] {
      FiniteIsConverted(positives[0].expectedScore);
      FiniteScoresCount(positives[1..], x);
      assert fields[1..] == PositiveFields(positives[1..]);
    }
  }

  lemma {:induction false} RisingScoresAre(positives: seq<PositiveEvidence>, s: seq<real>)
    requires RisingScores(positives, s)
    ensures multiset(s) == multiset(FiniteScores(PositiveFields(positives)))
  {
    forall x: real ensures multiset(s)[x] == multiset(FiniteScores(PositiveFields(positives)))[x] {
      FiniteScoresCount(positives, x);
    }
  }

  lemma {:induction false} NegativeScoresAre(negatives: seq<NegativeEvidence>, x: real)
    ensures x in FiniteScores(NegativeFields(negatives)) <==> IsNegative(negatives, x)
  {
    var fields := NegativeFields(negatives);
    FiniteScoresAre(fields, x);
    assert forall i | 0 <= i < |negatives| :: fields[i] == negatives[i].topScore;
    if IsNegative(negatives, x) {
      var i :| 0 <= i < |negatives| && Finite(negatives[i].topScore) == Some(x);
      assert Finite(fields[i]) == Some(x);
    }
  }

  /** The maximum is the greatest finite score of a negative, where there is one. */
  lemma {:induction false} MaximumIsGreatest(documents: nat, positives: seq<PositiveEvidence>,
                                             negatives: seq<NegativeEvidence>, o: Options, x: real)
    ensures
      var maximum := Derive(documents, positives, negatives, o).negativeMaximum;
      && (IsNegative(negatives, x) ==> maximum.Some? && x <= maximum.value)
      && (maximum.Some? ==> IsNegative(negatives, maximum.value))
  {
    NegativeScoresAre(negatives, x);
    if FiniteScores(NegativeFields(negatives)) != [] {
      NegativeScoresAre(negatives, Maximum(FiniteScores(NegativeFields(negatives))));
    }
  }

  lemma {:induction false} RoundUpIsThousandths(x: real)
    ensures WholeThousandths(RoundUp(x))
  {}

  /**
   The ceiling is a whole number of thousandths, from the maximum plus the margin up to less than a thousandth
   above it, but for the slack of 1e-12; without any finite negative the maximum counts as zero. That is one
   number. It is the ceiling the contract gets when the derivation is READY, and the gap is measured from it.
   */
  lemma {:induction false} CeilingIsNear(documents: nat, positives: seq<PositiveEvidence>,
                                         negatives: seq<NegativeEvidence>, o: Options)
    ensures
      var d := Derive(documents, positives, negatives, o);
      var top := if d.negativeMaximum.Some? then d.negativeMaximum.value else 0.0;
      var floor := if d.positiveFloorP05.Some? then d.positiveFloorP05.value else 0.0;
      && WholeThousandths(d.candidateCeiling)
      && top + o.safetyMargin - 0.000000000001 <= d.candidateCeiling
      && d.candidateCeiling < top + o.safetyMargin + 0.001 - 0.000000000001
      && d.negativeCeiling == (if d.status == Ready then Some(d.candidateCeiling) else None)
      && d.candidateSafetyGap == floor - d.candidateCeiling && d.observedScoreGap == floor - top
  {
    var scores := FiniteScores(NegativeFields(negatives));
    var top := if scores == [] then 0.0 else Maximum(scores);
    RoundUpBounds(top + o.safetyMargin);
    RoundUpIsThousandths(top + o.safetyMargin);
  }

  /** Some negative, if any is finite, lies within the margin and a thousandth below the ceiling. */
  lemma {:induction false} CeilingIsClose(documents: nat, positives: seq<PositiveEvidence>,
                                          negatives: seq<NegativeEvidence>, o: Options)
    ensures
      var ceiling := Derive(documents, positives, negatives, o).candidateCeiling;
      if exists x :: IsNegative(negatives, x)
      then exists x :: IsNegative(negatives, x) && ceiling < x + o.safetyMargin + 0.001
      else ceiling < o.safetyMargin + 0.001
  {
    var d := Derive(documents, positives, negatives, o);
    CeilingIsNear(documents, positives, negatives, o);
    MaximumIsGreatest(documents, positives, negatives, o, 0.0);
    if exists x :: IsNegative(negatives, x) {
      var x :| IsNegative(negatives, x);
      MaximumIsGreatest(documents, positives, negatives, o, x);
      assert IsNegative(negatives, d.negativeMaximum.value);
    }
  }

  /** At most one number is near enough. */
  lemma {:induction false} CeilingIsUnique(a: real, b: real, low: real)
    requires WholeThousandths(a) && WholeThousandths(b)
    requires low <= a < low + 0.001 && low <= b < low + 0.001
    ensures a == b
  {
    var j, k := (a * 1000.0).Floor, (b * 1000.0).Floor;
    assert -1.0 < (j - k) as real && (j - k) as real < 1.0;
  }

  /**
   The floor is what any rising listing of the finite positive scores holds at a twentieth of its length less
   one; without a finite score there is none.
   */
  lemma {:induction false} FloorIsAt(documents: nat, positives: seq<PositiveEvidence>,
                                     negatives: seq<NegativeEvidence>, o: Options, s: seq<real>, n: nat, x: real)
    requires RisingScores(positives, s) && |s| == n && x == (n - 1) as real * 0.05
    ensures
      var floor := Derive(documents, positives, negatives, o).positiveFloorP05;
      if n == 0 then floor == None
      else 0.0 <= x && x <= (n - 1) as real && floor == Some(At(s, x))
  {
    RisingScoresAre(positives, s);
    var scores := FiniteScores(PositiveFields(positives));
    if n == 0 {
      SameMultiset(s, scores);
    } else {
      PercentileIsAt(scores, 0.05, s, n, x);
    }
  }

  // ---- The status of a derivation ------------------------------------------------------------

  /** A source that exists, ranked first by `expectedRank` or, failing that, by the source rank, scoring enough. */
  ghost predicate FirstAndHigh(p: PositiveEvidence, threshold: real) {
    && p.sourceExists
    && (p.expectedRank == Number(Fin(1.0))
        || (!p.expectedRank.Number? && p.expectedSourceRank == Number(Fin(1.0))))
    && (p.expectedScore == Number(PosInf)
        || (Finite(p.expectedScore).Some? && Finite(p.expectedScore).value >= threshold))
  }

  lemma {:induction false} RanksFirstMeans(p: PositiveEvidence, threshold: real)
    ensures RanksFirst(p, threshold) <==> FirstAndHigh(p, threshold)
  {}

  ghost predicate EnoughEvidence(documents: nat, positives: nat, negatives: nat, o: Options) {
    documents >= o.minDocuments && positives >= o.minPositiveQueries && negatives >= o.minNegativeQueries
  }

  /** A status names the first of the four conditions that fails, and READY that none does. */
  lemma {:induction false} StatusIsFirstFault(documents: nat, positives: seq<PositiveEvidence>,
                                              negatives: seq<NegativeEvidence>, o: Options)
    ensures
      var d := Derive(documents, positives, negatives, o);
      var enough := EnoughEvidence(documents, |positives|, |negatives|, o);
      var ranked := positives != [] && forall p | p in positives :: FirstAndHigh(p, o.positiveThreshold);
      var apart := negatives != [] && forall n | n in negatives :: n.lexicalOverlap == [];
      && (d.status == InsufficientEvidence <==> !enough)
      && (d.status == PositiveRankingFailure <==> enough && !ranked)
      && (d.status == NegativeLexicalOverlap <==> enough && ranked && !apart)
      && (d.status == OverlappingDistributions <==>
            enough && ranked && apart && d.candidateSafetyGap < o.minimumSafeGap)
      && (d.status == Ready <==> enough && ranked && apart && d.candidateSafetyGap >= o.minimumSafeGap)
  {
    forall p | p in positives ensures RanksFirst(p, o.positiveThreshold) <==> FirstAndHigh(p, o.positiveThreshold) {
      RanksFirstMeans(p, o.positiveThreshold);
    }
  }

  /** READY under the default options: twenty documents, thirty queries of each kind, and the bounds in numbers. */
  lemma {:induction false} ReadyByDefault(documents: nat, positives: seq<PositiveEvidence>,
                                          negatives: seq<NegativeEvidence>)
    ensures
      var d := Derive(documents, positives, negatives, DEFAULTS);
      var top := if d.negativeMaximum.Some? then d.negativeMaximum.value else 0.0;
      && (d.status == Ready <==>
            && documents >= 20 && |positives| >= 30 && |negatives| >= 30
            && (forall p | p in positives :: FirstAndHigh(p, 0.25))
            && (forall n | n in negatives :: n.lexicalOverlap == [])
            && d.candidateSafetyGap >= 0.10)
      && top + 0.05 - 0.000000000001 <= d.candidateCeiling
      && d.candidateCeiling < top + 0.051 - 0.000000000001
  {
    StatusIsFirstFault(documents, positives, negatives, DEFAULTS);
    CeilingIsNear(documents, positives, negatives, DEFAULTS);
  }

  // ---- Accepted contracts --------------------------------------------------------------------

  /** A commit in full, a run, a workflow run and a date that parses. */
  ghost predicate Traceable(p: Provenance, parses: string -> bool) {
    && |p.calibrationCommitSha| == 40
    && (forall i | 0 <= i < 40 :: p.calibrationCommitSha[i] in "0123456789abcdefABCDEF")
    && p.calibrationRunId != "" && p.workflowRunId != "" && parses(p.generatedAt)
  }

  /** The derivation gives its method and the very bounds of the contract. */
  ghost predicate Derives(d: Derivation, ceiling: real, floor: real) {
    && d.how.Some? && Finite(d.negativeMaximum).Some?
    && Finite(d.candidateCeiling) == Some(ceiling) && Finite(d.positiveFloorP05) == Some(floor)
  }

  /** A safe gap of at least 0.10 that the bounds keep, or one that is not a number. */
  ghost predicate Keeps(gap: Field, ceiling: real, floor: real) {
    && ceiling < floor
    && match Finite(gap)
       case Some(x) => 0.10 <= x && x <= floor - ceiling
       case None => gap == Undefined || gap == Number(NaN)
  }

  ghost predicate Bounded(c: Contract, ceiling: real, floor: real, parses: string -> bool) {
    && Finite(c.negativeCeiling) == Some(ceiling) && Finite(c.positiveFloorP05) == Some(floor)
    && Traceable(c.provenance, parses)
    && c.derivation.Some? && Derives(c.derivation.value, ceiling, floor)
    && c.negativeMode == "HYBRID_SEPARATION_BAND" && c.positiveThreshold == Number(Fin(0.25))
    && Keeps(c.minimumSafeGap, ceiling, floor)
  }

  lemma {:induction false} TraceableIsKnown(p: Provenance, parses: string -> bool)
    ensures Traceable(p, parses) <==> KnownOrigin(p, parses)
  {
    forall c: char ensures HexDigit(c) <==> c in "0123456789abcdefABCDEF" {
      HexDigits(c);
    }
    var sha := p.calibrationCommitSha;
    if Traceable(p, parses) {
      forall c | c in sha ensures HexDigit(c) {
        var i :| 0 <= i < |sha| && sha[i] == c;
      }
    }
    if KnownOrigin(p, parses) {
      forall i | 0 <= i < 40 ensures sha[i] in "0123456789abcdefABCDEF" {
        assert sha[i] in sha;
      }
    }
  }

  lemma {:induction false} HexDigits(c: char)
    ensures HexDigit(c) <==> c in "0123456789abcdefABCDEF"
  {
    var digits := "0123456789abcdefABCDEF";
    if '0' <= c <= '9' { assert digits[c as int - 48] == c; }
    if 'a' <= c <= 'f' { assert digits[c as int - 87] == c; }
    if 'A' <= c <= 'F' { assert digits[c as int - 49] == c; }
  }

  /**
   A contract is accepted for an identity exactly when it is of that identity and of the current versions,
   ready, and its bounds are finite, derived, traceable and far enough apart. Otherwise another identity is a
   mismatch, a contract of the current versions without finite bounds is not ready, and the rest is stale.
   */
  lemma {:induction false} AcceptedExactly(c: Contract, identity: Identity, parses: string -> bool)
    ensures
      var current :=
        && c.acceptanceVersion == "gemini-embedding-2-retrieval-v2"
        && c.fixtureVersion == "sha256:f306b317ec91678376e2813e1f31efa8c4a46e16b6f218e4b72820d0b8dae038";
      var bounds := c.ready && Finite(c.negativeCeiling).Some? && Finite(c.positiveFloorP05).Some?;
      var r := AssertContract(Some(c), identity, parses);
      && (r == Ok(true) <==>
            && c.identity == identity && current && c.ready
            && exists ceiling, floor :: Bounded(c, ceiling, floor, parses))
      && (r == Err(SpaceMismatch) <==> c.identity != identity)
      && (r == Err(NotReady) <==> c.identity == identity && current && !bounds)
    ensures AssertContract(None, identity, parses) == Err(NotReady)
  {
    TraceableIsKnown(c.provenance, parses);
    FiniteIsConverted(c.negativeCeiling);
    FiniteIsConverted(c.positiveFloorP05);
    if IsFinite(c.negativeCeiling) && IsFinite(c.positiveFloorP05) {
      var ceiling, floor := Finite(c.negativeCeiling).value, Finite(c.positiveFloorP05).value;
      if c.derivation.Some? { DerivesMeans(c.derivation.value, ceiling, floor); }
      KeepsMeans(c.minimumSafeGap, ceiling, floor);
      assert Bounded(c, ceiling, floor, parses) <==> HasProvenance(c, parses) && SafetyBoundary(c);
    }
  }

  lemma {:induction false} DerivesMeans(d: Derivation, ceiling: real, floor: real)
    ensures Derives(d, ceiling, floor) <==>
      && d.how.Some? && IsFinite(d.negativeMaximum) && IsFinite(d.candidateCeiling) && IsFinite(d.positiveFloorP05)
      && ToNumber(d.candidateCeiling) == Fin(ceiling) && ToNumber(d.positiveFloorP05) == Fin(floor)
  {}

  lemma {:induction false} KeepsMeans(gap: Field, ceiling: real, floor: real)
    ensures Keeps(gap, ceiling, floor) <==>
      && ceiling < floor && !Less(ToNumber(gap), Fin(MINIMUM_SAFE_GAP)) && !Less(Fin(floor - ceiling), ToNumber(gap))
  {}

  /** What a calibration turns into: the bounds are the derivation's, the rest is what the caller gave. */
  lemma {:induction false} ContractOfCandidate(candidate: Option<Derived>, p: Provenance, fixtureVersion: string,
                                               identity: Identity, parses: string -> bool)
    ensures
      var r := CreateContract(candidate, p, fixtureVersion, identity, parses);
      && (r == Err(NotReady) <==> candidate.None? || candidate.value.status != Ready)
      && r != Err(SpaceMismatch)
      && (r.Ok? ==>
            var c, d := r.value, candidate.value;
            && AssertContract(Some(c), CURRENT_IDENTITY, parses) == Ok(true)
            && Finite(c.negativeCeiling) == Some(if d.negativeCeiling.Some? then d.negativeCeiling.value else 0.0)
            && Finite(c.positiveFloorP05) == Some(if d.positiveFloorP05.Some? then d.positiveFloorP05.value else 0.0)
            && (d.negativeMaximum.Some? ==> Finite(c.derivation.value.negativeMaximum) == d.negativeMaximum)
            && c.provenance.workflowRunId == p.workflowRunId && c.provenance.generatedAt == p.generatedAt
            && c.provenance.calibrationCommitSha == p.calibrationCommitSha
            && c.provenance.calibrationRunId ==
                 (if p.calibrationRunId == "" then p.workflowRunId else p.calibrationRunId))
  {}

  /** The shipped contract is accepted for the identity it is made for, with these bounds. */
  lemma {:induction false} ShippedContract(parses: string -> bool)
    requires parses("2026-08-17T16:36:46.074Z")
    ensures
      var own := Identity("gemini", "gemini-embedding-2", Fin(384.0), "gemini-embedding-2-search-v1");
      var c := ContractForIdentity(own);
      && AssertContract(Some(c), own, parses) == Ok(true)
      && c.negativeCeiling == Number(Fin(0.652)) && c.positiveFloorP05 == Number(Fin(0.7561462741171905))
      && c.positiveThreshold == Number(Fin(0.25)) && c.minimumSafeGap == Number(Fin(0.10))
  {
    ProofShaIsHex();
  }

  /** The contract of any other identity is the shipped one without bounds, under that identity, not ready. */
  lemma {:induction false} ContractOfOther(identity: Identity)
    requires identity != CURRENT_IDENTITY
    ensures
      var c, own := ContractForIdentity(identity), ContractForIdentity(CURRENT_IDENTITY);
      && !c.ready && c.negativeCeiling == Null && c.positiveFloorP05 == Null
      && c.identity.provider == (if identity.provider == "" then "unknown" else identity.provider)
      && c.identity.model == (if identity.model == "" then "unknown" else identity.model)
      && c.identity.embeddingSpaceVersion ==
           (if identity.embeddingSpaceVersion == "" then "unknown" else identity.embeddingSpaceVersion)
      && c.identity.dimensions == identity.dimensions
      && c == own.(identity := c.identity, ready := false, negativeCeiling := Null, positiveFloorP05 := Null)
  {}

  // ---- Verdicts ------------------------------------------------------------------------------

  /** The threshold of a contract: its own number, or a quarter. */
  ghost function ThresholdOf(contract: Option<Contract>): Num {
    if contract.Some? && contract.value.positiveThreshold.Number? then contract.value.positiveThreshold.n
    else Fin(0.25)
  }

  /** A positive passes exactly when it ranks first with a finite score at or above the threshold. */
  lemma {:induction false} PositiveVerdict(rank: Field, score: Field, contract: Option<Contract>)
    ensures
      var v, threshold := EvaluatePositive(rank, score, contract), ThresholdOf(contract);
      && (v.pass <==>
            && rank == Number(Fin(1.0)) && Finite(score).Some?
            && (threshold == NegInf || (threshold.Fin? && threshold.r <= Finite(score).value)))
      && (v.reason == NoReason <==> v.pass)
      && (v.reason == ExpectedSourceNotTop <==> rank != Number(Fin(1.0)))
      && (v.reason == ExpectedScoreBelowThreshold <==> rank == Number(Fin(1.0)) && !v.pass)
  {}

  /** A negative passes exactly when a ready contract has a ceiling, no token overlaps and no score lies above it. */
  lemma {:induction false} NegativeVerdict(score: Field, overlap: bool, contract: Option<Contract>)
    ensures
      var v := EvaluateNegative(score, overlap, contract);
      var ceiling :=
        if contract.Some? && contract.value.ready then Finite(contract.value.negativeCeiling) else None;
      && (v.reason == CalibrationNotReady <==> ceiling.None?)
      && (v.reason == FixtureLexicalOverlap <==> ceiling.Some? && overlap)
      && (v.reason == NegativeAboveCeiling <==>
            && ceiling.Some? && !overlap && score.Number?
            && (Finite(score).None? || Finite(score).value > ceiling.value))
      && (v.pass <==> v.reason == NoReason)
      && !v.reason.ExpectedSourceNotTop? && !v.reason.ExpectedScoreBelowThreshold?
  {}
}
