/** What holds of every calibration run: ranks, statuses, classification and judging it again. */
module CalibrationRun {
  import opened Wrappers
  import opened Sorting
  import opened JsNumbers
  import opened Cosine
  import opened Fixtures
  import opened Acceptance
  import opened Percentiles
  import opened Distributions
  import opened Calibration

  // ---- When a run succeeds -------------------------------------------------------------------

  ghost predicate Nonzero(v: seq<real>) {
    exists i :: 0 <= i < |v| && v[i] != 0.0
  }

  ghost predicate AllNonzero(vectors: seq<seq<real>>) {
    forall i | 0 <= i < |vectors| :: Nonzero(vectors[i])
  }

  lemma {:induction false} QueryRanks(s: Setting, query: seq<real>)
    requires Fits(s) && |query| == s.dimensions && IsSqrt(s.tools.sqrt) && s.corpus.documents != []
    ensures RankingOf(s, query).Ok? <==> Nonzero(query) && AllNonzero(s.vectors.documents)
  {
    forall i | 0 <= i < |s.vectors.documents|
      ensures Score(query, s.vectors.documents[i], s.tools.sqrt).Ok?
         <==> Nonzero(query) && Nonzero(s.vectors.documents[i])
    {
      ScoreMissing(query, s.vectors.documents[i], s.tools.sqrt);
    }
    assert s.vectors.documents[0] == s.vectors.documents[0];
  }

  /** A run over documents fails exactly when it meets a zero vector. */
  lemma {:induction false} RunFailsOnZeroVector(s: Setting)
    requires Fits(s) && IsSqrt(s.tools.sqrt) && s.corpus.documents != []
    ensures PositivesRank(s) && NegativesRank(s) <==>
      && AllNonzero(s.vectors.positives) && AllNonzero(s.vectors.negatives)
      && (s.corpus.positives != [] || s.corpus.negatives != [] ==> AllNonzero(s.vectors.documents))
  {
    forall i | 0 <= i < |s.vectors.positives|
      ensures RankingOf(s, s.vectors.positives[i]).Ok? <==>
        Nonzero(s.vectors.positives[i]) && AllNonzero(s.vectors.documents)
    {
      QueryRanks(s, s.vectors.positives[i]);
    }
    forall i | 0 <= i < |s.vectors.negatives|
      ensures RankingOf(s, s.vectors.negatives[i]).Ok? <==>
        Nonzero(s.vectors.negatives[i]) && AllNonzero(s.vectors.documents)
    {
      QueryRanks(s, s.vectors.negatives[i]);
    }
    if s.corpus.positives != [] { assert s.vectors.positives[0] == s.vectors.positives[0]; }
    if s.corpus.negatives != [] { assert s.vectors.negatives[0] == s.vectors.negatives[0]; }
  }

  // ---- Ranks ---------------------------------------------------------------------------------

  /** The results of query `i` before they are sorted. */
  ghost function ScoredFor(s: Setting, i: nat): Result<seq<Ranked>, VectorError>
    requires Fits(s) && i < |s.corpus.positives|
  {
    ScoreAll(DocumentIds(s.corpus.documents), s.vectors.documents, s.vectors.positives[i], s.tools.sqrt)
  }

  /**
   Over validated fixtures every expected source is found, its score is its own, and its rank is
   one plus the number of documents ahead of it.
   */
  lemma {:induction false} ExpectedRank(s: Setting, cases: seq<PositiveCase>, i: nat, k: nat)
    requires Fits(s) && PositivesBuilt(s, cases) && DocumentsFit(s.corpus, s.tools.text)
    requires TotalOrder(s.tools.idLeq) && Antisymmetric(s.tools.idLeq, DocumentIds(s.corpus.documents))
    requires i < |cases| && k < |s.corpus.documents|
    requires s.corpus.documents[k].fixtureId == s.corpus.positives[i].expectedSourceId
    ensures
      var e := cases[i].evidence;
      var scored := ScoredFor(s, i);
      && scored.Ok? && k < |scored.value| && e.sourceExists
      && e.expectedScore == Number(Fin(scored.value[k].score))
      && e.expectedRank == RankAt(Count(StrictlyAheadOf(s.tools.idLeq, scored.value[k]), scored.value))
  {
    PositiveBuilt(s, cases, i);
    RankCountsThoseAhead(DocumentIds(s.corpus.documents), s.vectors.documents, s.vectors.positives[i], s.tools, k);
  }

  /** Validation leaves no expected source without a document. */
  lemma {:induction false} ExpectedSourceExists(s: Setting, i: nat)
    requires ValidCorpus(s.corpus, s.tools.text) && i < |s.corpus.positives|
    ensures exists k ::
      0 <= k < |s.corpus.documents| && s.corpus.documents[k].fixtureId == s.corpus.positives[i].expectedSourceId
  {
    var id := s.corpus.positives[i].expectedSourceId;
    assert s.corpus.positives[i] in s.corpus.positives;
    var k :| 0 <= k < |s.corpus.documents| && DocumentIds(s.corpus.documents)[k] == id;
    assert s.corpus.documents[k].fixtureId == id;
  }

  // ---- Statuses ------------------------------------------------------------------------------

  lemma {:induction false} NoOverlaps(s: Setting, cases: seq<NegativeCase>)
    requires Fits(s) && NegativesBuilt(s, cases) && NegativesFit(s.corpus, s.tools.text)
    ensures forall i | 0 <= i < |cases| :: cases[i].evidence.lexicalOverlap == []
  {
    forall i | 0 <= i < |cases| ensures cases[i].evidence.lexicalOverlap == [] {
      NegativeBuilt(s, cases, i);
      assert s.corpus.negatives[i] in s.corpus.negatives;
      var overlap := AllOverlaps(s.tools.text, s.corpus.negatives[i].query, s.corpus.documents);
      assert overlap == [];
    }
  }

  /** Over validated fixtures no negative overlaps, so two of the statuses cannot occur. */
  lemma {:induction false} UnreachableStatuses(s: Setting, r: DimensionResult)
    requires Fits(s) && IsRun(s, r) && ValidCorpus(s.corpus, s.tools.text)
    ensures r.acceptance.status != NegativeLexicalOverlap && r.acceptance.status != PendingRecalibration
  {
    NoOverlaps(s, r.negativeCases);
    StatusMeans(|s.corpus.documents|, PositiveEvidences(r.positiveCases), NegativeEvidences(r.negativeCases), DEFAULTS);
  }

  // ---- Summary -------------------------------------------------------------------------------

  ghost predicate AllFinite(fields: seq<Field>) {
    forall i | 0 <= i < |fields| :: fields[i].Number? && fields[i].n.Fin?
  }

  lemma {:induction false} ExpectedScoresAreFinite(s: Setting, cases: seq<PositiveCase>)
    requires Fits(s) && PositivesBuilt(s, cases) && ValidCorpus(s.corpus, s.tools.text)
    requires TotalOrder(s.tools.idLeq) && Antisymmetric(s.tools.idLeq, DocumentIds(s.corpus.documents))
    ensures AllFinite(PositiveFields(PositiveEvidences(cases)))
  {
    forall i | 0 <= i < |cases|
      ensures cases[i].evidence.expectedScore.Number? && cases[i].evidence.expectedScore.n.Fin?
    {
      ExpectedSourceExists(s, i);
      var k :| 0 <= k < |s.corpus.documents|
            && s.corpus.documents[k].fixtureId == s.corpus.positives[i].expectedSourceId;
      ExpectedRank(s, cases, i, k);
    }
  }

  lemma {:induction false} RankedHasAll(s: Setting, query: seq<real>)
    requires Fits(s) && |query| == s.dimensions && RankingOf(s, query).Ok?
    ensures |RankingOf(s, query).value| == |s.corpus.documents|
  {}

  lemma {:induction false} TopScoresAreFinite(s: Setting, cases: seq<NegativeCase>)
    requires Fits(s) && NegativesBuilt(s, cases) && s.corpus.documents != []
    ensures AllFinite(NegativeFields(NegativeEvidences(cases)))
  {
    forall i | 0 <= i < |cases|
      ensures cases[i].evidence.topScore.Number? && cases[i].evidence.topScore.n.Fin?
    {
      NegativeBuilt(s, cases, i);
      RankedHasAll(s, s.vectors.negatives[i]);
    }
  }

  lemma {:induction false} GapsCompare(expected: seq<Field>, margins: seq<Field>, tops: seq<Field>)
    requires AllFinite(expected) && AllFinite(tops) && expected != [] && tops != []
    ensures
      var d := Distribute(expected, margins, tops);
      var floor := Percentile(FiniteScores(expected), 0.05);
      && d.negativeTopScore.max == Some(Maximum(FiniteScores(tops)))
      && floor.Some? && d.expectedScore.min.Some? && d.expectedScore.min.value <= floor.value
      && d.observedGap.Some? && d.observedGap.value <= floor.value - Maximum(FiniteScores(tops))
  {
    FiniteOnlyOfFinite(expected);
    FiniteOnlyOfFinite(tops);
    PercentileInRange(FiniteScores(expected), 0.05);
  }

  /**
   Over validated fixtures with queries of both kinds the summary and the derivation speak of the same
   scores: the same negative maximum, a least positive score no higher than the P05 floor, and so an
   observed gap no wider than the derived one.
   */
  lemma {:induction false} SummaryMatchesDerivation(s: Setting, r: DimensionResult)
    requires Fits(s) && IsRun(s, r) && ValidCorpus(s.corpus, s.tools.text)
    requires TotalOrder(s.tools.idLeq) && Antisymmetric(s.tools.idLeq, DocumentIds(s.corpus.documents))
    requires s.corpus.positives != [] && s.corpus.negatives != []
    ensures
      var d := r.summary.distribution;
      && d.negativeTopScore.max.Some? && d.negativeTopScore.max == r.acceptance.negativeMaximum
      && d.expectedScore.min.Some? && r.acceptance.positiveFloorP05.Some?
      && d.expectedScore.min.value <= r.acceptance.positiveFloorP05.value
      && d.observedGap.Some? && d.observedGap.value <= r.acceptance.observedScoreGap
  {
    ExpectedScoresAreFinite(s, r.positiveCases);
    TopScoresAreFinite(s, r.negativeCases);
    var expected := PositiveFields(PositiveEvidences(r.positiveCases));
    var tops := NegativeFields(NegativeEvidences(r.negativeCases));
    FiniteOnlyOfFinite(tops);
    GapsCompare(expected, Margins(r.positiveCases), tops);
  }

  // ---- Classification ------------------------------------------------------------------------

  lemma {:induction false} RateBelowOne<T>(p: T -> bool, cases: seq<T>)
    ensures Count(p, cases) <= |cases|
    ensures OrZero(Rate(Count(p, cases), |cases|)) < 1.0 <==> cases == [] || exists c | c in cases :: !p(c)
    ensures cases != [] && (forall c | c in cases :: p(c)) ==> Rate(Count(p, cases), |cases|) == Some(1.0)
  {
    CountIsFull(p, cases);
    var n, total := Count(p, cases), |cases|;
    if total > 0 { QuotientBelowOne(n, total); }
  }

  lemma {:induction false} QuotientBelowOne(n: nat, total: nat)
    requires total > 0 && n <= total
    ensures n as real / total as real < 1.0 <==> n < total
    ensures n == total ==> n as real / total as real == 1.0
  {}

  lemma {:induction false} CountIsFull<T>(p: T -> bool, cases: seq<T>)
    ensures Count(p, cases) <= |cases|
    ensures Count(p, cases) == |cases| <==> forall c | c in cases :: p(c)
    decreases |cases|
  {
    if cases != [] {
      CountIsFull(p, cases[1..]);
      assert cases == [cases[0]] + cases[1..];
    }
  }

  /** A case's own mark is what the derivation asks of it. */
  lemma {:induction false} MarkAgrees(p: PositiveQuery, ranked: seq<Ranked>)
    ensures
      var c := PositiveCaseOf(p, ranked);
      (RanksFirst(c.evidence, POSITIVE_SCORE_MIN) <==> c.pass) && (c.pass ==> RanksTop(c))
  {}

  lemma {:induction false} MarksAgree(s: Setting, cases: seq<PositiveCase>)
    requires Fits(s) && PositivesBuilt(s, cases)
    ensures forall i | 0 <= i < |cases| :: RanksFirst(cases[i].evidence, POSITIVE_SCORE_MIN) <==> cases[i].pass
    ensures forall i | 0 <= i < |cases| :: cases[i].pass ==> RanksTop(cases[i])
  {
    forall i | 0 <= i < |cases|
      ensures RanksFirst(cases[i].evidence, POSITIVE_SCORE_MIN) <==> cases[i].pass
      ensures cases[i].pass ==> RanksTop(cases[i])
    {
      PositiveBuilt(s, cases, i);
      MarkAgrees(s.corpus.positives[i], RankingOf(s, s.vectors.positives[i]).value);
    }
  }

  lemma {:induction false} MarksOfAll(s: Setting, cases: seq<PositiveCase>)
    requires Fits(s) && PositivesBuilt(s, cases)
    ensures (forall e | e in PositiveEvidences(cases) :: RanksFirst(e, POSITIVE_SCORE_MIN))
       <==> forall c | c in cases :: c.pass
    ensures forall c | c in cases && c.pass :: RanksTop(c)
  {
    MarksAgree(s, cases);
    var es := PositiveEvidences(cases);
    if forall c | c in cases :: c.pass {
      forall e | e in es ensures RanksFirst(e, POSITIVE_SCORE_MIN) {
        var i :| 0 <= i < |es| && es[i] == e;
        assert cases[i] in cases;
      }
    } else {
      var i :| 0 <= i < |cases| && !cases[i].pass;
      assert es[i] in es;
    }
  }

  /** What the class given to a summary means for the cases. */
  lemma {:induction false} ClassMeans(positives: seq<PositiveCase>, negatives: seq<NegativeCase>,
                                      acceptance: Derived)
    ensures
      var verdict := Classify(Summarize(positives, negatives), Some(acceptance));
      && (verdict == RankingQualityProblem <==> positives == [] || exists c | c in positives :: !RanksTop(c))
      && (verdict == PositiveThresholdNotSupported <==>
            positives != [] && (forall c | c in positives :: RanksTop(c)) && exists c | c in positives :: !c.pass)
  {
    RateBelowOne(RanksTop, positives);
    RateBelowOne(Passes, positives);
  }

  /** The run is classified as supporting the rule exactly when its derivation is READY. */
  lemma {:induction false} ClassMatchesStatus(s: Setting, r: DimensionResult)
    requires Fits(s) && IsRun(s, r)
    ensures r.classification == HybridRuleSupported <==> r.acceptance.status == Ready
    ensures r.classification == AbsoluteThresholdNotReliable <==> r.acceptance.status == OverlappingDistributions
  {
    ClassMeans(r.positiveCases, r.negativeCases, r.acceptance);
    MarksOfAll(s, r.positiveCases);
    StatusMeans(|s.corpus.documents|, PositiveEvidences(r.positiveCases), NegativeEvidences(r.negativeCases), DEFAULTS);
  }

  // ---- Judging the calibration again ---------------------------------------------------------

  lemma {:induction false} SameEvidence(s: Setting, contract: Option<Contract>, negatives: seq<NegativeCase>,
                                        again: seq<NegativeCase>)
    requires Fits(s) && Fits(s.(contract := contract))
    requires NegativesBuilt(s, negatives)
    requires NegativesBuilt(s.(contract := contract), again)
    ensures NegativeEvidences(again) == NegativeEvidences(negatives)
  {
    var t := s.(contract := contract);
    forall i | 0 <= i < |negatives| ensures again[i].evidence == negatives[i].evidence {
      NegativeBuilt(s, negatives, i);
      NegativeBuilt(t, again, i);
      assert RankingOf(t, s.vectors.negatives[i]) == RankingOf(s, s.vectors.negatives[i]);
    }
  }

  lemma {:induction false} SamePositives(s: Setting, contract: Option<Contract>, positives: seq<PositiveCase>,
                                         again: seq<PositiveCase>)
    requires Fits(s) && Fits(s.(contract := contract))
    requires PositivesBuilt(s, positives)
    requires PositivesBuilt(s.(contract := contract), again)
    ensures again == positives
  {
    var t := s.(contract := contract);
    forall i | 0 <= i < |positives| ensures again[i] == positives[i] {
      PositiveBuilt(s, positives, i);
      PositiveBuilt(t, again, i);
      assert RankingOf(t, s.vectors.positives[i]) == RankingOf(s, s.vectors.positives[i]);
    }
  }

  /** Nothing but the negatives' verdicts depends on the contract. */
  lemma {:induction false} ContractChangesOnlyVerdicts(s: Setting, contract: Option<Contract>, r: DimensionResult,
                                                       again: DimensionResult)
    requires Fits(s) && IsRun(s, r) && Fits(s.(contract := contract)) && IsRun(s.(contract := contract), again)
    ensures again.positiveCases == r.positiveCases && again.acceptance == r.acceptance
  {
    SamePositives(s, contract, r.positiveCases, again.positiveCases);
    SameEvidence(s, contract, r.negativeCases, again.negativeCases);
  }

  /**
   Run again over the same embeddings under the contract its READY derivation made, a calibration
   evaluates every negative, passes every one of them and every positive, and is READY as before.
   */
  lemma {:induction false} CalibrationPassesItsOwnContract(s: Setting, r: DimensionResult, p: Provenance,
                                                           again: DimensionResult)
    requires Fits(s) && IsRun(s, r) && r.acceptance.status == Ready
    requires
      var t := s.(contract := Some(CalibratedContract(r.acceptance, p, FIXTURE_VERSION, CURRENT_IDENTITY)));
      Fits(t) && IsRun(t, again)
    ensures again.acceptance == r.acceptance && again.classification == HybridRuleSupported
    ensures again.summary.negativeAcceptanceEvaluated && again.summary.negativeAcceptancePassRate == Some(1.0)
    ensures forall c | c in r.positiveCases ::
      PassesUnder(c, CalibratedContract(r.acceptance, p, FIXTURE_VERSION, CURRENT_IDENTITY))
  {
    var c := CalibratedContract(r.acceptance, p, FIXTURE_VERSION, CURRENT_IDENTITY);
    ContractChangesOnlyVerdicts(s, Some(c), r, again);
    ClassMatchesStatus(s.(contract := Some(c)), again);
    NegativesPassAgain(s.(contract := Some(c)), again, p);
    StatusMeans(|s.corpus.documents|, PositiveEvidences(r.positiveCases), NegativeEvidences(r.negativeCases), DEFAULTS);
    MarksOfAll(s, r.positiveCases);
    PositivesPassAgain(s, r.positiveCases, c);
  }

  ghost predicate PassesUnder(c: PositiveCase, contract: Contract) {
    EvaluatePositive(c.evidence.expectedRank, c.evidence.expectedScore, Some(contract)) == Verdict(true, NoReason)
  }

  lemma {:induction false} MarkedPasses(p: PositiveQuery, ranked: seq<Ranked>, contract: Contract)
    requires contract.positiveThreshold == Number(Fin(POSITIVE_SCORE_MIN)) && PositiveCaseOf(p, ranked).pass
    ensures PassesUnder(PositiveCaseOf(p, ranked), contract)
  {}

  lemma {:induction false} PositivesPassAgain(s: Setting, cases: seq<PositiveCase>, contract: Contract)
    requires Fits(s) && PositivesBuilt(s, cases) && forall c | c in cases :: c.pass
    requires contract.positiveThreshold == Number(Fin(POSITIVE_SCORE_MIN))
    ensures forall c | c in cases :: PassesUnder(c, contract)
  {
    forall c | c in cases ensures PassesUnder(c, contract) {
      var i :| 0 <= i < |cases| && cases[i] == c;
      PositiveBuilt(s, cases, i);
      MarkedPasses(s.corpus.positives[i], RankingOf(s, s.vectors.positives[i]).value, contract);
    }
  }

  lemma {:induction false} JudgedNegative(n: NegativeQuery, ranked: seq<Ranked>, documents: seq<Document>, text: Text,
                                          contract: Contract)
    ensures
      var c := NegativeCaseOf(n, ranked, documents, text, Some(contract));
      && (c.evidence.topScore.Number? ==> c.evidence.topScore.n.Fin?)
      && (c.acceptanceEvaluated <==> contract.ready)
      && c.pass == Some(EvaluateNegative(c.evidence.topScore, c.evidence.lexicalOverlap != [], Some(contract)).pass)
  {}

  lemma {:induction false} JudgedNegatives(s: Setting, cases: seq<NegativeCase>, contract: Contract, i: nat)
    requires Fits(s) && NegativesBuilt(s, cases) && s.contract == Some(contract) && contract.ready && i < |cases|
    ensures Evaluated(cases[i])
    ensures var e := cases[i].evidence;
      && (e.topScore.Number? ==> e.topScore.n.Fin?)
      && (EvaluateNegative(e.topScore, e.lexicalOverlap != [], Some(contract)).pass ==> EvaluatedAndPassed(cases[i]))
  {
    NegativeBuilt(s, cases, i);
    JudgedNegative(s.corpus.negatives[i], RankingOf(s, s.vectors.negatives[i]).value, s.corpus.documents,
                   s.tools.text, contract);
  }

  lemma {:induction false} NegativesPassAgain(s: Setting, r: DimensionResult, p: Provenance)
    requires Fits(s) && IsRun(s, r) && r.acceptance.status == Ready
    requires s.contract == Some(CalibratedContract(r.acceptance, p, FIXTURE_VERSION, CURRENT_IDENTITY))
    ensures r.summary.negativeAcceptanceEvaluated && r.summary.negativeAcceptancePassRate == Some(1.0)
  {
    forall i | 0 <= i < |r.negativeCases|
      ensures Evaluated(r.negativeCases[i]) && EvaluatedAndPassed(r.negativeCases[i])
    {
      JudgedNegatives(s, r.negativeCases, s.contract.value, i);
      CalibrationNegativesPass(|s.corpus.documents|, PositiveEvidences(r.positiveCases),
                               NegativeEvidences(r.negativeCases), DEFAULTS, p, FIXTURE_VERSION, CURRENT_IDENTITY, i);
    }
    AllPassedMeans(r.positiveCases, r.negativeCases);
  }

  lemma {:induction false} AllPassedMeans(positives: seq<PositiveCase>, negatives: seq<NegativeCase>)
    requires negatives != [] && forall i | 0 <= i < |negatives| ::
      Evaluated(negatives[i]) && EvaluatedAndPassed(negatives[i])
    ensures Summarize(positives, negatives).negativeAcceptanceEvaluated
    ensures Summarize(positives, negatives).negativeAcceptancePassRate == Some(1.0)
  {
    CountIsFull(Evaluated, negatives);
    RateBelowOne(EvaluatedAndPassed, negatives);
  }
}
