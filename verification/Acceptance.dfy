/**
 The semantic acceptance contract: what is derived from a calibration, when a contract made of it
 is accepted, and how cases are judged under it.
 */
module Acceptance {
  import opened Wrappers
  import opened JsNumbers
  import opened Percentiles
  import opened Sorting

  const POSITIVE_SCORE_MIN := 0.25
  const MINIMUM_SAFE_GAP := 0.10
  const NEGATIVE_SAFETY_MARGIN := 0.05
  const SLACK := 0.000000000001

  const ACCEPTANCE_VERSION := "gemini-embedding-2-retrieval-v2"
  const FIXTURE_VERSION := "sha256:f306b317ec91678376e2813e1f31efa8c4a46e16b6f218e4b72820d0b8dae038"
  const NEGATIVE_MODE := "HYBRID_SEPARATION_BAND"
  const DERIVATION_METHOD :=
    "negative maximum plus explicit safety margin, bounded by positive P05 and minimum safe gap"

  datatype Options = Options(
    positiveThreshold: real, safetyMargin: real, minimumSafeGap: real,
    minDocuments: nat, minPositiveQueries: nat, minNegativeQueries: nat)

  const DEFAULTS := Options(POSITIVE_SCORE_MIN, NEGATIVE_SAFETY_MARGIN, MINIMUM_SAFE_GAP, 20, 30, 30)

  datatype PositiveEvidence = PositiveEvidence(
    sourceExists: bool, expectedRank: Field, expectedSourceRank: Field, expectedScore: Field)

  datatype NegativeEvidence = NegativeEvidence(topScore: Field, lexicalOverlap: seq<string>)

  datatype Status =
    | PendingRecalibration
    | InsufficientEvidence
    | PositiveRankingFailure
    | NegativeLexicalOverlap
    | OverlappingDistributions
    | Ready

  datatype Derived = Derived(
    status: Status,
    ready: bool,
    negativeCeiling: Option<real>,
    positiveFloorP05: Option<real>,
    negativeMaximum: Option<real>,
    observedScoreGap: real,
    candidateCeiling: real,
    candidateSafetyGap: real)

  // ---- Derivation ----------------------------------------------------------------------------

  function RoundUp(x: real): real {
    Ceil((x - SLACK) * 1000.0) as real / 1000.0
  }

  /** Rounds up to thousandths, but for the slack, and settles at once. */
  lemma {:induction false} RoundUpBounds(x: real)
    ensures x - SLACK <= RoundUp(x) && RoundUp(x) < x - SLACK + 0.001
    ensures RoundUp(RoundUp(x)) == RoundUp(x)
  {
    CeilIsNear((x - SLACK) * 1000.0);
    ThousandthsAreFixed(Ceil((x - SLACK) * 1000.0));
  }

  lemma {:induction false} ThousandthsAreFixed(k: int)
    ensures RoundUp(k as real / 1000.0) == k as real / 1000.0
  {
    var y := (k as real / 1000.0 - SLACK) * 1000.0;
    assert y == k as real - 0.000000001;
    CeilIsNear(y);
    assert y.Floor == k - 1;
  }

  /** `finiteScores`: converted, with the non-finite dropped and null kept as zero. */
  function FiniteScores(values: seq<Field>): seq<real> {
    if values == [] then []
    else if IsFinite(values[0]) then [ToNumber(values[0]).r] + FiniteScores(values[1..])
    else FiniteScores(values[1..])
  }

  lemma {:induction false} FiniteScoresHas(values: seq<Field>, i: nat)
    requires i < |values| && IsFinite(values[i])
    ensures ToNumber(values[i]).r in FiniteScores(values)
    decreases |values|
  {
    if i > 0 { FiniteScoresHas(values[1..], i - 1); }
  }

  /** The percentile of the acceptance script is that of the calibration script on finite numbers. */
  lemma {:induction false} PercentilesAgree(values: seq<real>, fields: seq<Field>, fraction: real)
    requires 0.0 <= fraction <= 1.0 && |fields| == |values|
    requires forall i | 0 <= i < |values| :: fields[i] == Number(Fin(values[i]))
    ensures Percentile(FiniteScores(fields), fraction) == Percentile(values, fraction)
  {
    FiniteScoresOfFinite(values, fields);
  }

  lemma {:induction false} FiniteScoresOfFinite(values: seq<real>, fields: seq<Field>)
    requires |fields| == |values|
    requires forall i | 0 <= i < |values| :: fields[i] == Number(Fin(values[i]))
    ensures FiniteScores(fields) == values
    decreases |values|
  {
    if values != [] {
      assert fields[0] == Number(Fin(values[0]));
      FiniteScoresOfFinite(values[1..], fields[1..]);
      assert values == [values[0]] + values[1..];
    }
  }

  function Maximum(values: seq<real>): (m: real)
    requires values != []
    ensures m in values && forall v | v in values :: v <= m
  {
    if |values| == 1 then values[0]
    else
      var rest := Maximum(values[1..]);
      assert values == [values[0]] + values[1..];
      if values[0] < rest then rest else values[0]
  }

  function PositiveFields(positives: seq<PositiveEvidence>): seq<Field> {
    seq(|positives|, i requires 0 <= i < |positives| => positives[i].expectedScore)
  }

  function NegativeFields(negatives: seq<NegativeEvidence>): seq<Field> {
    seq(|negatives|, i requires 0 <= i < |negatives| => negatives[i].topScore)
  }

  predicate RanksFirst(p: PositiveEvidence, threshold: real) {
    && p.sourceExists
    && ToNumber(Coalesce(p.expectedRank, p.expectedSourceRank)) == Fin(1.0)
    && AtLeast(ToNumber(p.expectedScore), Fin(threshold))
  }

  /** Arithmetic on a null percentile or maximum takes it for zero. */
  function OrZero(o: Option<real>): real {
    match o
    case None => 0.0
    case Some(x) => x
  }

  function Derive(documents: nat, positives: seq<PositiveEvidence>, negatives: seq<NegativeEvidence>, o: Options)
    : Derived
  {
    var negativeScores := FiniteScores(NegativeFields(negatives));
    var positiveRankPass := positives != [] && forall p | p in positives :: RanksFirst(p, o.positiveThreshold);
    var negativeLexicalPass := negatives != [] && forall n | n in negatives :: n.lexicalOverlap == [];
    var minimumCountsPass :=
      documents >= o.minDocuments && |positives| >= o.minPositiveQueries && |negatives| >= o.minNegativeQueries;
    var floor := Percentile(FiniteScores(PositiveFields(positives)), 0.05);
    var maximum := if negativeScores == [] then None else Some(Maximum(negativeScores));
    var ceiling := RoundUp(OrZero(maximum) + o.safetyMargin);
    var gap := OrZero(floor) - ceiling;
    var separationPass := gap >= o.minimumSafeGap;
    var ready := minimumCountsPass && positiveRankPass && negativeLexicalPass && separationPass;
    var initial := PendingRecalibration;
    var chained :=
      if !minimumCountsPass then InsufficientEvidence
      else if !positiveRankPass then PositiveRankingFailure
      else if !negativeLexicalPass then NegativeLexicalOverlap
      else if !separationPass then OverlappingDistributions
      else initial;
    var status := if ready then Ready else chained;
    Derived(status, ready, if ready then Some(ceiling) else None, floor, maximum, OrZero(floor) - OrZero(maximum),
            ceiling, gap)
  }

  /** What each status says of the evidence. The initial one never survives: either the chain or `ready` replaces it. */
  lemma {:induction false} StatusMeans(documents: nat, positives: seq<PositiveEvidence>,
                                       negatives: seq<NegativeEvidence>, o: Options)
    ensures
      var status := Derive(documents, positives, negatives, o).status;
      && (status in {Ready, OverlappingDistributions} ==>
            positives != [] && forall p | p in positives :: RanksFirst(p, o.positiveThreshold))
      && (status == Ready ==> forall n | n in negatives :: n.lexicalOverlap == [])
      && (status == NegativeLexicalOverlap && o.minNegativeQueries > 0 ==>
            exists n | n in negatives :: n.lexicalOverlap != [])
      && status != PendingRecalibration
    ensures
      var d := Derive(documents, positives, negatives, o);
      var enough :=
        documents >= o.minDocuments && |positives| >= o.minPositiveQueries && |negatives| >= o.minNegativeQueries;
      && (d.status == InsufficientEvidence <==> !enough)
      && (d.status == Ready <==>
            && enough && positives != [] && (forall p | p in positives :: RanksFirst(p, o.positiveThreshold))
            && negatives != [] && (forall n | n in negatives :: n.lexicalOverlap == [])
            && d.candidateSafetyGap >= o.minimumSafeGap)
      && (d.ready <==> d.status == Ready)
      && d.negativeCeiling == (if d.status == Ready then Some(d.candidateCeiling) else None)
  {}

  /** The ceiling lies above every finite negative score, whatever the slack took off. */
  lemma {:induction false} CeilingCovers(documents: nat, positives: seq<PositiveEvidence>,
                                         negatives: seq<NegativeEvidence>, o: Options, i: nat)
    requires i < |negatives| && IsFinite(negatives[i].topScore)
    ensures ToNumber(negatives[i].topScore).r + o.safetyMargin - SLACK
         <= Derive(documents, positives, negatives, o).candidateCeiling
  {
    var fields := NegativeFields(negatives);
    FiniteScoresHas(fields, i);
    RoundUpBounds(Maximum(FiniteScores(fields)) + o.safetyMargin);
  }

  /** A positive score beats every finite negative by `gap`. */
  ghost predicate BeatsEvery(score: real, negatives: seq<NegativeEvidence>, gap: real) {
    forall n | n in negatives && IsFinite(n.topScore) :: score - ToNumber(n.topScore).r >= gap
  }

  /**
   When the derivation is READY, at most ceil((n - 1) * 0.05) of the `n` finite positive scores
   lie below a floor, and any score from the floor up beats every negative by the safe gap and
   the margin, but for the slack. Without any finite positive score the floor counts as zero.
   */
  lemma {:induction false} ReadySeparates(documents: nat, positives: seq<PositiveEvidence>,
                                          negatives: seq<NegativeEvidence>, o: Options, score: real)
    requires Derive(documents, positives, negatives, o).status == Ready
    ensures
      var scores := FiniteScores(PositiveFields(positives));
      var floor := Derive(documents, positives, negatives, o).positiveFloorP05;
      && (floor.Some? <==> scores != [])
      && (floor.Some? ==> Count(Below(floor.value), scores) <= Ceil(Position(|scores|, 0.05)))
      && (score >= OrZero(floor) ==> BeatsEvery(score, negatives, o.minimumSafeGap + o.safetyMargin - SLACK))
  {
    var scores := FiniteScores(PositiveFields(positives));
    if scores != [] { FewBelow(scores, 0.05); }
    forall n | n in negatives && IsFinite(n.topScore)
      ensures ToNumber(n.topScore).r + o.safetyMargin - SLACK
           <= Derive(documents, positives, negatives, o).candidateCeiling
    {
      var i :| 0 <= i < |negatives| && negatives[i] == n;
      CeilingCovers(documents, positives, negatives, o, i);
    }
  }

  // ---- Contracts -----------------------------------------------------------------------------

  datatype Identity = Identity(provider: string, model: string, dimensions: Num, embeddingSpaceVersion: string)

  const CURRENT_IDENTITY := Identity("gemini", "gemini-embedding-2", Fin(384.0), "gemini-embedding-2-search-v1")

  datatype Derivation = Derivation(
    how: Option<string>, negativeMaximum: Field, candidateCeiling: Field, positiveFloorP05: Field)

  datatype Provenance = Provenance(
    calibrationRunId: string, calibrationCommitSha: string, workflowRunId: string, generatedAt: string)

  datatype Contract = Contract(
    identity: Identity,
    acceptanceVersion: string,
    fixtureVersion: string,
    ready: bool,
    negativeCeiling: Field,
    positiveFloorP05: Field,
    derivation: Option<Derivation>,
    provenance: Provenance,
    negativeMode: string,
    positiveThreshold: Field,
    minimumSafeGap: Field)

  datatype AcceptanceError = NotReady | SpaceMismatch | Stale

  const PROOF_COMMIT_SHA := "4080b8b32d" + "482b80dfc3" + "21ca366175" + "d4f51b051f"

  const PROOF_CONTRACT := Contract(
    CURRENT_IDENTITY, ACCEPTANCE_VERSION, FIXTURE_VERSION, true,
    Number(Fin(0.652)), Number(Fin(0.7561462741171905)),
    Some(Derivation(Some(DERIVATION_METHOD), Number(Fin(0.6014600529160323)), Number(Fin(0.652)),
                    Number(Fin(0.7561462741171905)))),
    Provenance("32046390673", PROOF_COMMIT_SHA, "32046390673", "2026-08-17T16:36:46.074Z"),
    NEGATIVE_MODE, Number(Fin(POSITIVE_SCORE_MIN)), Number(Fin(MINIMUM_SAFE_GAP)))

  predicate HexDigit(c: char) {
    '0' <= c <= '9' || 'a' <= c <= 'f' || 'A' <= c <= 'F'
  }

  predicate CommitSha(s: string) {
    |s| == 40 && forall c | c in s :: HexDigit(c)
  }

  /** Who made the calibration, and when; `parses` is `Date.parse` giving a finite time. */
  predicate KnownOrigin(p: Provenance, parses: string -> bool) {
    CommitSha(p.calibrationCommitSha) && p.calibrationRunId != "" && p.workflowRunId != "" && parses(p.generatedAt)
  }

  predicate HasProvenance(c: Contract, parses: string -> bool) {
    && KnownOrigin(c.provenance, parses)
    && c.derivation.Some?
    && var d := c.derivation.value;
    && d.how.Some?
    && IsFinite(d.negativeMaximum) && IsFinite(d.candidateCeiling) && IsFinite(d.positiveFloorP05)
    && ToNumber(d.candidateCeiling) == ToNumber(c.negativeCeiling)
    && ToNumber(d.positiveFloorP05) == ToNumber(c.positiveFloorP05)
  }

  predicate SafetyBoundary(c: Contract)
    requires IsFinite(c.negativeCeiling) && IsFinite(c.positiveFloorP05)
  {
    var ceiling, floor := ToNumber(c.negativeCeiling).r, ToNumber(c.positiveFloorP05).r;
    && c.negativeMode == NEGATIVE_MODE
    && ToNumber(c.positiveThreshold) == Fin(POSITIVE_SCORE_MIN)
    && !Less(ToNumber(c.minimumSafeGap), Fin(MINIMUM_SAFE_GAP))
    && !Less(Fin(floor - ceiling), ToNumber(c.minimumSafeGap))
    && ceiling < floor
  }

  /** The identity fields are compared as strings, so NaN dimensions agree with NaN. */
  function AssertContract(contract: Option<Contract>, identity: Identity, parses: string -> bool)
    : Result<bool, AcceptanceError>
  {
    if contract.None? then Err(NotReady)
    else
      var c := contract.value;
      if c.identity != identity then Err(SpaceMismatch)
      else if c.acceptanceVersion != ACCEPTANCE_VERSION || c.fixtureVersion != FIXTURE_VERSION then Err(Stale)
      else if !c.ready || !IsFinite(c.negativeCeiling) || !IsFinite(c.positiveFloorP05) then Err(NotReady)
      else if !HasProvenance(c, parses) then Err(Stale)
      else if !SafetyBoundary(c) then Err(Stale)
      else Ok(true)
  }

  function FirstNonEmpty(a: string, b: string): string {
    if a != "" then a else b
  }

  function CalibratedContract(d: Derived, p: Provenance, fixtureVersion: string, identity: Identity): Contract {
    PROOF_CONTRACT.(
      identity := identity,
      fixtureVersion := fixtureVersion,
      ready := true,
      negativeCeiling := Number(ToNumber(OrNull(d.negativeCeiling))),
      positiveFloorP05 := Number(ToNumber(OrNull(d.positiveFloorP05))),
      derivation := Some(Derivation(
        Some(DERIVATION_METHOD), OrNull(d.negativeMaximum), Number(ToNumber(OrNull(d.negativeCeiling))),
        Number(ToNumber(OrNull(d.positiveFloorP05))))),
      provenance := p.(calibrationRunId := FirstNonEmpty(p.calibrationRunId, p.workflowRunId)))
  }

  function CreateContract(candidate: Option<Derived>, p: Provenance, fixtureVersion: string, identity: Identity,
                          parses: string -> bool)
    : Result<Contract, AcceptanceError>
  {
    if candidate.None? || candidate.value.status != Ready then Err(NotReady)
    else if identity != CURRENT_IDENTITY || fixtureVersion != FIXTURE_VERSION then Err(Stale)
    else
      var contract := CalibratedContract(candidate.value, p, fixtureVersion, identity);
      match AssertContract(Some(contract), identity, parses)
      case Ok(_) => Ok(contract)
      case Err(e) => Err(e)
  }

  /** The run id falls back to the workflow's, so only three fields can be at fault. */
  ghost predicate WellFormed(p: Provenance, parses: string -> bool) {
    CommitSha(p.calibrationCommitSha) && p.workflowRunId != "" && parses(p.generatedAt)
  }

  /**
   A READY derivation makes an accepted contract exactly when its provenance is well formed, its
   identity is current and the floor clears the ceiling by the contract's own safe gap; the last
   always holds unless the caller asked for a smaller gap.
   */
  lemma {:induction false} ReadyIsAccepted(documents: nat, positives: seq<PositiveEvidence>,
      negatives: seq<NegativeEvidence>, o: Options, p: Provenance, fixtureVersion: string, identity: Identity,
      parses: string -> bool)
    requires Derive(documents, positives, negatives, o).status == Ready
    ensures
      var d := Derive(documents, positives, negatives, o);
      CreateContract(Some(d), p, fixtureVersion, identity, parses).Ok? <==>
        && WellFormed(p, parses)
        && identity == CURRENT_IDENTITY && fixtureVersion == FIXTURE_VERSION
        && d.candidateSafetyGap >= MINIMUM_SAFE_GAP
    ensures o.minimumSafeGap >= MINIMUM_SAFE_GAP ==>
      Derive(documents, positives, negatives, o).candidateSafetyGap >= MINIMUM_SAFE_GAP
  {
    var d := Derive(documents, positives, negatives, o);
    if identity == CURRENT_IDENTITY && fixtureVersion == FIXTURE_VERSION {
      var c := CalibratedContract(d, p, fixtureVersion, identity);
      assert HasProvenance(c, parses) <==> WellFormed(p, parses);
      assert SafetyBoundary(c) <==> d.candidateSafetyGap >= MINIMUM_SAFE_GAP;
    }
  }

  // ---- Judging cases -------------------------------------------------------------------------

  datatype Reason =
    | NoReason
    | ExpectedSourceNotTop
    | ExpectedScoreBelowThreshold
    | CalibrationNotReady
    | FixtureLexicalOverlap
    | NegativeAboveCeiling

  datatype Verdict = Verdict(pass: bool, reason: Reason)

  function EvaluatePositive(expectedRank: Field, expectedScore: Field, contract: Option<Contract>): Verdict {
    var threshold :=
      if contract.None? then Fin(POSITIVE_SCORE_MIN)
      else ToNumber(Coalesce(contract.value.positiveThreshold, Number(Fin(POSITIVE_SCORE_MIN))));
    var top := ToNumber(expectedRank) == Fin(1.0);
    var pass := top && IsFinite(expectedScore) && AtLeast(ToNumber(expectedScore), threshold);
    Verdict(pass, if pass then NoReason else if !top then ExpectedSourceNotTop else ExpectedScoreBelowThreshold)
  }

  function EvaluateNegative(topScore: Field, lexicalOverlap: bool, contract: Option<Contract>): Verdict {
    if contract.None? || !contract.value.ready || !IsFinite(contract.value.negativeCeiling) then
      Verdict(false, CalibrationNotReady)
    else if lexicalOverlap then Verdict(false, FixtureLexicalOverlap)
    else if !topScore.Number? then Verdict(true, NoReason)
    else
      var pass := IsFinite(topScore) && !Less(ToNumber(contract.value.negativeCeiling), ToNumber(topScore));
      Verdict(pass, if pass then NoReason else NegativeAboveCeiling)
  }

  /**
   Under the contract made of a READY derivation a calibration negative passes exactly when it has no top
   score, or a finite one no higher than the ceiling. A margin of at least the slack keeps every finite one
   below; then it fails only for a score that is NaN or infinite.
   */
  lemma {:induction false} CalibrationNegativesPass(documents: nat, positives: seq<PositiveEvidence>,
      negatives: seq<NegativeEvidence>, o: Options, p: Provenance, fixtureVersion: string, identity: Identity,
      i: nat)
    requires Derive(documents, positives, negatives, o).status == Ready && i < |negatives|
    ensures
      var d := Derive(documents, positives, negatives, o);
      var c := CalibratedContract(d, p, fixtureVersion, identity);
      var n := negatives[i];
      EvaluateNegative(n.topScore, n.lexicalOverlap != [], Some(c)).pass <==>
        (n.topScore.Number? ==> n.topScore.n.Fin? && n.topScore.n.r <= d.candidateCeiling)
    ensures o.safetyMargin >= SLACK ==>
      var n := negatives[i];
      n.topScore.Number? && n.topScore.n.Fin? ==>
        n.topScore.n.r <= Derive(documents, positives, negatives, o).candidateCeiling
  {
    assert negatives[i] in negatives;
    if IsFinite(negatives[i].topScore) { CeilingCovers(documents, positives, negatives, o, i); }
  }

  /**
   Under that contract a calibration positive passes exactly when its rank came from `expectedRank` itself
   and its score is finite and at least the contract's threshold, which a threshold as high has seen to.
   */
  lemma {:induction false} CalibrationPositivesPass(documents: nat, positives: seq<PositiveEvidence>,
      negatives: seq<NegativeEvidence>, o: Options, p: Provenance, fixtureVersion: string, identity: Identity,
      i: nat)
    requires Derive(documents, positives, negatives, o).status == Ready && i < |positives|
    ensures
      var c := CalibratedContract(Derive(documents, positives, negatives, o), p, fixtureVersion, identity);
      var e := positives[i];
      EvaluatePositive(e.expectedRank, e.expectedScore, Some(c)).pass <==>
        e.expectedRank.Number? && IsFinite(e.expectedScore) && ToNumber(e.expectedScore).r >= POSITIVE_SCORE_MIN
    ensures o.positiveThreshold >= POSITIVE_SCORE_MIN ==>
      (positives[i].expectedScore != Number(PosInf) <==>
         IsFinite(positives[i].expectedScore) && ToNumber(positives[i].expectedScore).r >= POSITIVE_SCORE_MIN)
  {
    assert positives[i] in positives;
    assert RanksFirst(positives[i], o.positiveThreshold);
  }

  /** Evidence of which three cases fail the contract it makes. */
  ghost function OddPositives(): seq<PositiveEvidence> {
    [PositiveEvidence(true, Undefined, Number(Fin(1.0)), Number(Fin(0.9))),
     PositiveEvidence(true, Number(Fin(1.0)), Number(Fin(1.0)), Number(PosInf))]
  }

  ghost function OddNegatives(): seq<NegativeEvidence> {
    [NegativeEvidence(Number(NaN), []), NegativeEvidence(Number(Fin(0.1)), [])]
  }

  const FEW_CASES := Options(POSITIVE_SCORE_MIN, NEGATIVE_SAFETY_MARGIN, MINIMUM_SAFE_GAP, 0, 2, 2)

  lemma {:induction false} OddScores()
    ensures FiniteScores(PositiveFields(OddPositives())) == [0.9]
    ensures FiniteScores(NegativeFields(OddNegatives())) == [0.1]
  {
    var positive, negative := PositiveFields(OddPositives()), NegativeFields(OddNegatives());
    assert positive == [Number(Fin(0.9)), Number(PosInf)] && positive[1..] == [Number(PosInf)];
    assert positive[1..][1..] == [];
    assert negative == [Number(NaN), Number(Fin(0.1))] && negative[1..] == [Number(Fin(0.1))];
    assert negative[1..][1..] == [];
  }

  lemma {:induction false} ReadyWithOddCases()
    ensures Derive(0, OddPositives(), OddNegatives(), FEW_CASES).status == Ready
  {
    OddScores();
    OneValuePercentile(0.9, 0.05);
    RoundUpBounds(0.1 + NEGATIVE_SAFETY_MARGIN);
  }

  lemma {:induction false} OneValuePercentile(value: real, fraction: real)
    requires 0.0 <= fraction <= 1.0
    ensures Percentile([value], fraction) == Some(value)
  {
    assert [value][1..] == [];
    assert Ascending([value]) == [value];
    assert Position(1, fraction) == 0.0;
    EndsOfScale([value]);
  }

  /** READY evidence, under whose contract a positive without its own rank, an infinite one and a NaN negative fail. */
  lemma {:induction false} ReadyEvidenceFails(p: Provenance)
    ensures Derive(0, OddPositives(), OddNegatives(), FEW_CASES).status == Ready
    ensures
      var c := CalibratedContract(Derive(0, OddPositives(), OddNegatives(), FEW_CASES), p, FIXTURE_VERSION,
                                  CURRENT_IDENTITY);
      && (forall e | e in OddPositives() :: !EvaluatePositive(e.expectedRank, e.expectedScore, Some(c)).pass)
      && !EvaluateNegative(OddNegatives()[0].topScore, false, Some(c)).pass
  {
    ReadyWithOddCases();
  }

  // ---- The contract of an identity -----------------------------------------------------------

  function ContractForIdentity(identity: Identity): Contract {
    if identity == CURRENT_IDENTITY then PROOF_CONTRACT
    else
      PROOF_CONTRACT.(
        identity := Identity(
          FirstNonEmpty(identity.provider, "unknown"), FirstNonEmpty(identity.model, "unknown"),
          identity.dimensions, FirstNonEmpty(identity.embeddingSpaceVersion, "unknown")),
        ready := false, negativeCeiling := Null, positiveFloorP05 := Null)
  }

  lemma {:induction false} ProofShaIsHex()
    ensures CommitSha(PROOF_COMMIT_SHA)
  {}

  /** Only the current identity finds an accepted contract; any other learns why not. */
  lemma {:induction false} OnlyCurrentIdentityIsReady(identity: Identity, parses: string -> bool)
    requires parses(PROOF_CONTRACT.provenance.generatedAt)
    ensures
      var r := AssertContract(Some(ContractForIdentity(identity)), identity, parses);
      r == if identity == CURRENT_IDENTITY then Ok(true)
           else if identity.provider == "" || identity.model == "" || identity.embeddingSpaceVersion == ""
             then Err(SpaceMismatch)
           else Err(NotReady)
    ensures identity != CURRENT_IDENTITY ==> forall score, overlap ::
      !EvaluateNegative(score, overlap, Some(ContractForIdentity(identity))).pass
  {
    ProofShaIsHex();
  }

  /** Under an accepted contract no negative that passes comes within 0.10 of the positive floor. */
  lemma {:induction false} AcceptedContractSeparates(c: Contract, identity: Identity, parses: string -> bool,
                                                     topScore: Field)
    requires AssertContract(Some(c), identity, parses).Ok? && ToNumber(c.minimumSafeGap) != NaN
    requires topScore.Number? && EvaluateNegative(topScore, false, Some(c)).pass
    ensures ToNumber(topScore).r + MINIMUM_SAFE_GAP <= ToNumber(c.positiveFloorP05).r
  {}

  ghost function WithBoundary(c: Contract, gap: Field, floor: real): Contract
    requires c.derivation.Some?
  {
    c.(minimumSafeGap := gap, positiveFloorP05 := Number(Fin(floor)),
       derivation := Some(c.derivation.value.(positiveFloorP05 := Number(Fin(floor)))))
  }

  /**
   What gap an accepted contract needs. A safe gap that is not a number compares with nothing, so any floor
   above the ceiling then does; a number must be at least 0.10, and the floor must clear the ceiling by it.
   */
  lemma {:induction false} GapOfAccepted(c: Contract, identity: Identity, parses: string -> bool, gap: Field,
                                         floor: real)
    requires AssertContract(Some(c), identity, parses).Ok?
    ensures
      var ceiling := ToNumber(c.negativeCeiling).r;
      AssertContract(Some(WithBoundary(c, gap, floor)), identity, parses).Ok? <==>
        && ceiling < floor
        && (ToNumber(gap) == NaN
            || (AtLeast(ToNumber(gap), Fin(MINIMUM_SAFE_GAP)) && AtLeast(Fin(floor - ceiling), ToNumber(gap))))
  {}

  /** The shipped contract, for one, is accepted with no gap to speak of. */
  lemma {:induction false} NotANumberGapIsAccepted(parses: string -> bool, floor: real)
    requires parses(PROOF_CONTRACT.provenance.generatedAt)
    ensures AssertContract(Some(PROOF_CONTRACT), CURRENT_IDENTITY, parses).Ok?
    ensures AssertContract(Some(WithBoundary(PROOF_CONTRACT, Number(NaN), floor)), CURRENT_IDENTITY, parses).Ok?
       <==> 0.652 < floor
  {
    ProofShaIsHex();
    GapOfAccepted(PROOF_CONTRACT, CURRENT_IDENTITY, parses, Number(NaN), floor);
  }
}
