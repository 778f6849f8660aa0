/**
 One calibration run over embedding vectors already fetched: ranking, the cases built from it,
 the derived acceptance and the classification.
 */
module Calibration {
  import opened Wrappers
  import opened Sorting
  import opened JsNumbers
  import opened Cosine
  import opened Fixtures
  import opened Acceptance
  import opened Distributions

  datatype Ranked = Ranked(fixtureId: string, score: real)

  /** The square root, the order of `localeCompare` and the tokens of a text. */
  datatype Tools = Tools(sqrt: real -> real, idLeq: (string, string) -> bool, text: Text)

  /** The embeddings of a corpus, entry by entry, all of one length. */
  datatype Vectors = Vectors(documents: seq<seq<real>>, positives: seq<seq<real>>, negatives: seq<seq<real>>)

  ghost predicate AllOfLength(vectors: seq<seq<real>>, n: nat) {
    forall i | 0 <= i < |vectors| :: |vectors[i]| == n
  }

  ghost predicate Embeds(v: Vectors, c: Corpus, dimensions: nat) {
    && dimensions > 0
    && |v.documents| == |c.documents| && AllOfLength(v.documents, dimensions)
    && |v.positives| == |c.positives| && AllOfLength(v.positives, dimensions)
    && |v.negatives| == |c.negatives| && AllOfLength(v.negatives, dimensions)
  }

  // ---- Ranking -------------------------------------------------------------------------------

  /** Higher scores first, equal scores by id. */
  function Ahead(idLeq: (string, string) -> bool): (Ranked, Ranked) -> bool {
    (x: Ranked, y: Ranked) => x.score > y.score || (x.score == y.score && idLeq(x.fixtureId, y.fixtureId))
  }

  ghost function StrictlyAheadOf(idLeq: (string, string) -> bool, x: Ranked): Ranked -> bool {
    (y: Ranked) => Ahead(idLeq)(y, x) && !Ahead(idLeq)(x, y)
  }

  function ScoreAll(ids: seq<string>, vectors: seq<seq<real>>, query: seq<real>, sqrt: real -> real)
    : (r: Result<seq<Ranked>, VectorError>)
    requires |ids| == |vectors| && AllOfLength(vectors, |query|)
    ensures r.Ok? <==> forall i | 0 <= i < |ids| :: Score(query, vectors[i], sqrt).Ok?
    ensures r.Ok? ==> |r.value| == |ids| && forall i | 0 <= i < |ids| ::
      r.value[i].fixtureId == ids[i] && Score(query, vectors[i], sqrt) == Ok(r.value[i].score)
  {
    if ids == [] then Ok([])
    else
      var n := |ids| - 1;
      assert forall i | 0 <= i < n :: vectors[..n][i] == vectors[i];
      match ScoreAll(ids[..n], vectors[..n], query, sqrt)
      case Err(e) => Err(e)
      case Ok(first) =>
        match Score(query, vectors[n], sqrt)
        case Err(e) => Err(e)
        case Ok(score) => Ok(first + [Ranked(ids[n], score)])
  }

  function RankDocuments(ids: seq<string>, vectors: seq<seq<real>>, query: seq<real>, tools: Tools)
    : Result<seq<Ranked>, VectorError>
    requires |ids| == |vectors| && AllOfLength(vectors, |query|)
  {
    match ScoreAll(ids, vectors, query, tools.sqrt)
    case Err(e) => Err(e)
    case Ok(scored) => Ok(Sort(Ahead(tools.idLeq), scored))
  }

  /** The index of the first result with an id, or the length where there is none. */
  function FindId(ranked: seq<Ranked>, id: string): (i: nat)
    ensures i <= |ranked| && (i < |ranked| ==> ranked[i].fixtureId == id)
    ensures forall j | 0 <= j < i :: ranked[j].fixtureId != id
  {
    if ranked == [] || ranked[0].fixtureId == id then 0 else 1 + FindId(ranked[1..], id)
  }

  lemma {:induction false} AheadIsOrder(idLeq: (string, string) -> bool)
    requires TotalOrder(idLeq)
    ensures TotalOrder(Ahead(idLeq))
  {
    var leq := Ahead(idLeq);
    forall x: Ranked ensures leq(x, x) { assert idLeq(x.fixtureId, x.fixtureId); }
    forall x: Ranked, y: Ranked ensures leq(x, y) || leq(y, x) {
      assert idLeq(x.fixtureId, y.fixtureId) || idLeq(y.fixtureId, x.fixtureId);
    }
    forall x: Ranked, y: Ranked, z: Ranked | leq(x, y) && leq(y, z) ensures leq(x, z) {
      assert idLeq(x.fixtureId, y.fixtureId) && idLeq(y.fixtureId, z.fixtureId)
         ==> idLeq(x.fixtureId, z.fixtureId);
    }
  }

  /**
   With unique ids the place of a document, from zero, is the number of documents ahead of it,
   however the documents were listed.
   */
  lemma {:induction false} RankCountsThoseAhead(ids: seq<string>, vectors: seq<seq<real>>, query: seq<real>,
                                                tools: Tools, k: nat)
    requires |ids| == |vectors| && AllOfLength(vectors, |query|)
    requires TotalOrder(tools.idLeq) && Antisymmetric(tools.idLeq, ids) && Distinct(ids) && k < |ids|
    requires RankDocuments(ids, vectors, query, tools).Ok?
    ensures
      var scored := ScoreAll(ids, vectors, query, tools.sqrt).value;
      var ranked := RankDocuments(ids, vectors, query, tools).value;
      var place := FindId(ranked, ids[k]);
      && place < |ranked| && ranked[place] == scored[k]
      && place == Count(StrictlyAheadOf(tools.idLeq, scored[k]), scored)
  {
    var scored := ScoreAll(ids, vectors, query, tools.sqrt).value;
    var leq := Ahead(tools.idLeq);
    var ranked := Sort(leq, scored);
    var place := FindId(ranked, ids[k]);
    AheadIsOrder(tools.idLeq);
    SortSorts(leq, scored);
    assert scored[k] in ranked;
    FoundIsScored(ids, scored, ranked, k);
    OnlyEarlierAreAhead(tools.idLeq, ids, scored, ranked, place);
    CountOfPrefix(StrictlyAheadOf(tools.idLeq, scored[k]), ranked, place);
    CountOfSort(leq, StrictlyAheadOf(tools.idLeq, scored[k]), scored);
  }

  /** The ranking lists every scored document once, by falling score and, among equals, by id. */
  lemma {:induction false} RankedByScore(ids: seq<string>, vectors: seq<seq<real>>, query: seq<real>, tools: Tools)
    requires |ids| == |vectors| && AllOfLength(vectors, |query|) && TotalOrder(tools.idLeq)
    requires RankDocuments(ids, vectors, query, tools).Ok?
    ensures
      var ranked := RankDocuments(ids, vectors, query, tools).value;
      && multiset(ranked) == multiset(ScoreAll(ids, vectors, query, tools.sqrt).value)
      && (forall i, j | 0 <= i < j < |ranked| :: ranked[i].score >= ranked[j].score)
      && (forall i, j | 0 <= i < j < |ranked| && ranked[i].score == ranked[j].score ::
            tools.idLeq(ranked[i].fixtureId, ranked[j].fixtureId))
  {
    AheadIsOrder(tools.idLeq);
    var scored := ScoreAll(ids, vectors, query, tools.sqrt).value;
    SortSorts(Ahead(tools.idLeq), scored);
    var ranked := Sort(Ahead(tools.idLeq), scored);
    assert forall i, j | 0 <= i < j < |ranked| :: Ahead(tools.idLeq)(ranked[i], ranked[j]);
  }

  lemma {:induction false} FoundIsScored(ids: seq<string>, scored: seq<Ranked>, ranked: seq<Ranked>, k: nat)
    requires Distinct(ids) && k < |ids| == |scored| && forall i | 0 <= i < |ids| :: scored[i].fixtureId == ids[i]
    requires forall x :: x in ranked <==> x in scored
    ensures FindId(ranked, ids[k]) < |ranked| && ranked[FindId(ranked, ids[k])] == scored[k]
  {
    assert scored[k] in ranked;
    var j :| 0 <= j < |ranked| && ranked[j] == scored[k];
    var place := FindId(ranked, ids[k]);
    assert ranked[place] in scored;
    var i :| 0 <= i < |scored| && scored[i] == ranked[place];
  }

  lemma {:induction false} OnlyEarlierAreAhead(idLeq: (string, string) -> bool, ids: seq<string>,
                                               scored: seq<Ranked>, ranked: seq<Ranked>, place: nat)
    requires TotalOrder(idLeq) && Antisymmetric(idLeq, ids) && Sorted(Ahead(idLeq), ranked)
    requires |ids| == |scored| && forall i | 0 <= i < |ids| :: scored[i].fixtureId == ids[i]
    requires place < |ranked| && forall x :: x in ranked <==> x in scored
    requires forall j | 0 <= j < place :: ranked[j].fixtureId != ranked[place].fixtureId
    ensures forall j | 0 <= j < |ranked| :: StrictlyAheadOf(idLeq, ranked[place])(ranked[j]) <==> j < place
  {
    AheadIsOrder(idLeq);
    forall j | 0 <= j < place ensures !Ahead(idLeq)(ranked[place], ranked[j]) {
      assert ranked[j] in scored && ranked[place] in scored;
      assert ranked[j].fixtureId in ids && ranked[place].fixtureId in ids;
      assert Ahead(idLeq)(ranked[j], ranked[place]);
    }
  }

  // ---- Cases ---------------------------------------------------------------------------------

  datatype PositiveCase = PositiveCase(
    queryId: string, expectedSourceId: string, topSourceId: Option<string>, evidence: PositiveEvidence,
    topScore: Field, top1Margin: Option<real>, ranked: seq<Ranked>, pass: bool)

  datatype NegativeCase = NegativeCase(
    negativeQueryId: string, topSourceId: Option<string>, evidence: NegativeEvidence, ranked: seq<Ranked>,
    pass: Option<bool>, acceptanceEvaluated: bool, reason: Reason)

  function TopScore(ranked: seq<Ranked>): Field {
    if ranked == [] then Null else Number(Fin(ranked[0].score))
  }

  function TopId(ranked: seq<Ranked>): Option<string> {
    if ranked == [] then None else Some(ranked[0].fixtureId)
  }

  /** One plus the number of results before. */
  function RankAt(before: nat): Field {
    Number(Fin((before + 1) as real))
  }

  function PositiveCaseOf(p: PositiveQuery, ranked: seq<Ranked>): PositiveCase {
    var i := FindId(ranked, p.expectedSourceId);
    var found := i < |ranked|;
    var rank := if found then RankAt(i) else Null;
    var score := if found then Number(Fin(ranked[i].score)) else Null;
    PositiveCase(
      p.queryId, p.expectedSourceId, TopId(ranked), PositiveEvidence(found, rank, rank, score), TopScore(ranked),
      if |ranked| >= 2 then Some(ranked[0].score - ranked[1].score) else None, ranked,
      found && i == 0 && ranked[i].score >= POSITIVE_SCORE_MIN)
  }

  /** The tokens shared with each document in turn. */
  function AllOverlaps(text: Text, query: string, documents: seq<Document>): (r: seq<string>)
    ensures r == [] <==> forall d | d in documents :: ShareNoToken(text, query, SearchText(d))
    decreases |documents|
  {
    if documents == [] then []
    else
      assert documents == [documents[0]] + documents[1..];
      var shared := OverlapTokens(text, query, SearchText(documents[0]));
      assert shared != [] ==> shared[0] in shared;
      shared + AllOverlaps(text, query, documents[1..])
  }

  function NegativeCaseOf(n: NegativeQuery, ranked: seq<Ranked>, documents: seq<Document>, text: Text,
                          contract: Option<Contract>): NegativeCase
  {
    var overlap := Unique(AllOverlaps(text, n.query, documents));
    var verdict := EvaluateNegative(TopScore(ranked), overlap != [], contract);
    NegativeCase(
      n.negativeQueryId, TopId(ranked), NegativeEvidence(TopScore(ranked), overlap), ranked,
      if contract.None? then None else Some(verdict.pass), contract.Some? && contract.value.ready, verdict.reason)
  }

  function PositiveEvidences(cases: seq<PositiveCase>): seq<PositiveEvidence> {
    seq(|cases|, i requires 0 <= i < |cases| => cases[i].evidence)
  }

  function NegativeEvidences(cases: seq<NegativeCase>): seq<NegativeEvidence> {
    seq(|cases|, i requires 0 <= i < |cases| => cases[i].evidence)
  }

  // ---- Summary and classification ------------------------------------------------------------

  datatype Summary = Summary(
    positiveTop1Accuracy: Option<real>, positiveThresholdPassRate: Option<real>,
    negativeAcceptanceEvaluated: bool, negativeAcceptancePassRate: Option<real>, distribution: Distribution)

  datatype Classification =
    | RankingQualityProblem
    | PositiveThresholdNotSupported
    | InsufficientCalibration
    | HybridRuleSupported
    | AbsoluteThresholdNotReliable

  /** None is the `null` of an empty list. */
  function Rate(count: nat, total: nat): Option<real> {
    if total == 0 then None else Some(count as real / total as real)
  }

  predicate RanksTop(c: PositiveCase) {
    c.evidence.expectedRank == Number(Fin(1.0))
  }

  predicate Passes(c: PositiveCase) {
    c.pass
  }

  predicate Evaluated(c: NegativeCase) {
    c.acceptanceEvaluated
  }

  predicate EvaluatedAndPassed(c: NegativeCase) {
    c.acceptanceEvaluated && c.pass == Some(true)
  }

  function Margins(cases: seq<PositiveCase>): seq<Field> {
    seq(|cases|, i requires 0 <= i < |cases| => OrNull(cases[i].top1Margin))
  }

  function Summarize(positives: seq<PositiveCase>, negatives: seq<NegativeCase>): Summary {
    var evaluated := Count(Evaluated, negatives);
    Summary(
      Rate(Count(RanksTop, positives), |positives|),
      Rate(Count(Passes, positives), |positives|),
      evaluated == |negatives| && negatives != [],
      Rate(Count(EvaluatedAndPassed, negatives), evaluated),
      Distribute(PositiveFields(PositiveEvidences(positives)), Margins(positives),
                 NegativeFields(NegativeEvidences(negatives))))
  }

  function Classify(s: Summary, acceptance: Option<Derived>): Classification {
    if OrZero(s.positiveTop1Accuracy) < 1.0 then RankingQualityProblem
    else if OrZero(s.positiveThresholdPassRate) < 1.0 then PositiveThresholdNotSupported
    else if acceptance.None? then InsufficientCalibration
    else if acceptance.value.status == Ready then HybridRuleSupported
    else if acceptance.value.status == OverlappingDistributions then AbsoluteThresholdNotReliable
    else InsufficientCalibration
  }

  /** Per query, the score of each document. */
  datatype ScoreMatrix = ScoreMatrix(positive: seq<map<string, real>>, negative: seq<map<string, real>>)

  /** `Object.fromEntries`: a repeated id keeps its last score. */
  function ScoresById(ranked: seq<Ranked>): map<string, real> {
    if ranked == [] then map[]
    else
      var last := ranked[|ranked| - 1];
      ScoresById(ranked[..|ranked| - 1])[last.fixtureId := last.score]
  }

  function MatrixOf(positives: seq<PositiveCase>, negatives: seq<NegativeCase>): ScoreMatrix {
    ScoreMatrix(
      seq(|positives|, i requires 0 <= i < |positives| => ScoresById(positives[i].ranked)),
      seq(|negatives|, i requires 0 <= i < |negatives| => ScoresById(negatives[i].ranked)))
  }

  lemma {:induction false} ScoresByIdHolds(ranked: seq<Ranked>)
    requires forall i, j | 0 <= i < j < |ranked| :: ranked[i].fixtureId != ranked[j].fixtureId
    ensures forall x | x in ranked :: x.fixtureId in ScoresById(ranked) && ScoresById(ranked)[x.fixtureId] == x.score
    ensures forall id | id in ScoresById(ranked) :: exists x :: x in ranked && x.fixtureId == id
    decreases |ranked|
  {
    if ranked != [] {
      var n := |ranked| - 1;
      ScoresByIdHolds(ranked[..n]);
      assert ranked == ranked[..n] + [ranked[n]];
      forall x | x in ranked ensures x.fixtureId in ScoresById(ranked) && ScoresById(ranked)[x.fixtureId] == x.score {
        var i :| 0 <= i <= n && ranked[i] == x;
        if i < n { assert ranked[..n][i] == x; }
      }
    }
  }

  /** With unique ids a row of the matrix gives each document its own score, and nothing else. */
  lemma {:induction false} MatrixOfRanking(ids: seq<string>, vectors: seq<seq<real>>, query: seq<real>, tools: Tools,
                                           k: nat)
    requires |ids| == |vectors| && AllOfLength(vectors, |query|) && Distinct(ids) && k < |ids|
    requires RankDocuments(ids, vectors, query, tools).Ok?
    ensures
      var row := ScoresById(RankDocuments(ids, vectors, query, tools).value);
      && ids[k] in row && Score(query, vectors[k], tools.sqrt) == Ok(row[ids[k]])
      && forall id | id in row :: id in ids
  {
    var scored := ScoreAll(ids, vectors, query, tools.sqrt).value;
    var ranked := Sort(Ahead(tools.idLeq), scored);
    RankedIdsAreDistinct(ids, scored, ranked);
    ScoresByIdHolds(ranked);
    assert scored[k] in scored && scored[k] in ranked;
    forall id | id in ScoresById(ranked) ensures id in ids {
      var x :| x in ranked && x.fixtureId == id;
      assert x in scored;
      var i :| 0 <= i < |scored| && scored[i] == x;
      assert ids[i] == id;
    }
  }

  lemma {:induction false} RankedIdsAreDistinct(ids: seq<string>, scored: seq<Ranked>, ranked: seq<Ranked>)
    requires Distinct(ids) && |ids| == |scored| && forall i | 0 <= i < |ids| :: scored[i].fixtureId == ids[i]
    requires multiset(ranked) == multiset(scored)
    ensures forall i, j | 0 <= i < j < |ranked| :: ranked[i].fixtureId != ranked[j].fixtureId
  {
    SameMultiset(ranked, scored);
    DistinctMultiset(scored);
    forall i: nat, j: nat | i < j < |ranked| ensures ranked[i].fixtureId != ranked[j].fixtureId {
      assert ranked[i] in scored && ranked[j] in scored;
      var k :| 0 <= k < |scored| && scored[k] == ranked[i];
      var l :| 0 <= l < |scored| && scored[l] == ranked[j];
      if ranked[i] == ranked[j] { DuplicateCounts(ranked, i, j); }
      assert k != l;
    }
  }

  // ---- One run -------------------------------------------------------------------------------

  datatype DimensionResult = DimensionResult(
    positiveCases: seq<PositiveCase>, negativeCases: seq<NegativeCase>, scoreMatrix: ScoreMatrix, summary: Summary,
    acceptance: Derived, classification: Classification)

  /** What every query of a run is ranked against. */
  datatype Setting = Setting(
    corpus: Corpus, vectors: Vectors, dimensions: nat, tools: Tools, contract: Option<Contract>)

  ghost predicate Fits(s: Setting) {
    Embeds(s.vectors, s.corpus, s.dimensions)
  }

  function RankingOf(s: Setting, query: seq<real>): Result<seq<Ranked>, VectorError>
    requires Fits(s) && |query| == s.dimensions
  {
    RankDocuments(DocumentIds(s.corpus.documents), s.vectors.documents, query, s.tools)
  }

  /** Case `i` is the one made from query `i`'s ranking. */
  ghost function BuildsPositive(s: Setting): (int, PositiveCase) -> bool
    requires Fits(s)
  {
    (i: int, c: PositiveCase) =>
      && 0 <= i < |s.corpus.positives|
      && var ranking := RankingOf(s, s.vectors.positives[i]);
      && ranking.Ok?
      && c == PositiveCaseOf(s.corpus.positives[i], ranking.value)
  }

  ghost function BuildsNegative(s: Setting): (int, NegativeCase) -> bool
    requires Fits(s)
  {
    (i: int, c: NegativeCase) =>
      && 0 <= i < |s.corpus.negatives|
      && var ranking := RankingOf(s, s.vectors.negatives[i]);
      && ranking.Ok?
      && c == NegativeCaseOf(s.corpus.negatives[i], ranking.value, s.corpus.documents, s.tools.text, s.contract)
  }

  ghost predicate AllBuilt<C>(builds: (int, C) -> bool, cases: seq<C>, n: nat) {
    |cases| == n && forall i | 0 <= i < n :: builds(i, cases[i])
  }

  lemma {:induction false} OneMoreBuilt<C>(builds: (int, C) -> bool, cases: seq<C>, n: nat, c: C)
    requires AllBuilt(builds, cases, n) && builds(n, c)
    ensures AllBuilt(builds, cases + [c], n + 1)
  {}

  ghost predicate PositivesBuilt(s: Setting, cases: seq<PositiveCase>)
    requires Fits(s)
  {
    AllBuilt(BuildsPositive(s), cases, |s.corpus.positives|)
  }

  ghost predicate NegativesBuilt(s: Setting, cases: seq<NegativeCase>)
    requires Fits(s)
  {
    AllBuilt(BuildsNegative(s), cases, |s.corpus.negatives|)
  }

  lemma {:induction false} PositiveBuilt(s: Setting, cases: seq<PositiveCase>, i: nat)
    requires Fits(s) && PositivesBuilt(s, cases) && i < |cases|
    ensures
      var ranking := RankingOf(s, s.vectors.positives[i]);
      ranking.Ok? && cases[i] == PositiveCaseOf(s.corpus.positives[i], ranking.value)
  {
    assert BuildsPositive(s)(i, cases[i]);
  }

  lemma {:induction false} NegativeBuilt(s: Setting, cases: seq<NegativeCase>, i: nat)
    requires Fits(s) && NegativesBuilt(s, cases) && i < |cases|
    ensures
      var ranking := RankingOf(s, s.vectors.negatives[i]);
      && ranking.Ok?
      && cases[i] == NegativeCaseOf(s.corpus.negatives[i], ranking.value, s.corpus.documents, s.tools.text, s.contract)
  {
    assert BuildsNegative(s)(i, cases[i]);
  }

  ghost predicate PositivesRank(s: Setting)
    requires Fits(s)
  {
    forall i | 0 <= i < |s.vectors.positives| :: RankingOf(s, s.vectors.positives[i]).Ok?
  }

  ghost predicate NegativesRank(s: Setting)
    requires Fits(s)
  {
    forall i | 0 <= i < |s.vectors.negatives| :: RankingOf(s, s.vectors.negatives[i]).Ok?
  }

  lemma {:induction false} BuiltPositivesRank(s: Setting, cases: seq<PositiveCase>)
    requires Fits(s) && PositivesBuilt(s, cases)
    ensures PositivesRank(s)
  {
    forall i | 0 <= i < |s.vectors.positives| ensures RankingOf(s, s.vectors.positives[i]).Ok? {
      PositiveBuilt(s, cases, i);
    }
  }

  lemma {:induction false} BuiltNegativesRank(s: Setting, cases: seq<NegativeCase>)
    requires Fits(s) && NegativesBuilt(s, cases)
    ensures NegativesRank(s)
  {
    forall i | 0 <= i < |s.vectors.negatives| ensures RankingOf(s, s.vectors.negatives[i]).Ok? {
      NegativeBuilt(s, cases, i);
    }
  }

  /** What follows from the cases. */
  function Conclude(documents: nat, positives: seq<PositiveCase>, negatives: seq<NegativeCase>): DimensionResult {
    var summary := Summarize(positives, negatives);
    var acceptance := Derive(documents, PositiveEvidences(positives), NegativeEvidences(negatives), DEFAULTS);
    DimensionResult(positives, negatives, MatrixOf(positives, negatives), summary, acceptance,
                    Classify(summary, Some(acceptance)))
  }

  ghost predicate IsRun(s: Setting, r: DimensionResult)
    requires Fits(s)
  {
    && PositivesBuilt(s, r.positiveCases) && NegativesBuilt(s, r.negativeCases)
    && r == Conclude(|s.corpus.documents|, r.positiveCases, r.negativeCases)
  }

  method BuildPositives(s: Setting) returns (r: Result<seq<PositiveCase>, VectorError>)
    requires Fits(s)
    ensures r.Ok? <==> PositivesRank(s)
    ensures r.Ok? ==> PositivesBuilt(s, r.value)
  {
    var cases := [];
    ghost var builds := BuildsPositive(s);
    for i := 0 to |s.corpus.positives|
      invariant AllBuilt(builds, cases, i)
    {
      var ranking := RankingOf(s, s.vectors.positives[i]);
      if ranking.Err? { return Err(ranking.error); }
      var c := PositiveCaseOf(s.corpus.positives[i], ranking.value);
      OneMoreBuilt(builds, cases, i, c);
      cases := cases + [c];
    }
    BuiltPositivesRank(s, cases);
    return Ok(cases);
  }

  method BuildNegatives(s: Setting) returns (r: Result<seq<NegativeCase>, VectorError>)
    requires Fits(s)
    ensures r.Ok? <==> NegativesRank(s)
    ensures r.Ok? ==> NegativesBuilt(s, r.value)
  {
    var cases := [];
    ghost var builds := BuildsNegative(s);
    for i := 0 to |s.corpus.negatives|
      invariant AllBuilt(builds, cases, i)
    {
      var ranking := RankingOf(s, s.vectors.negatives[i]);
      if ranking.Err? { return Err(ranking.error); }
      var c := NegativeCaseOf(s.corpus.negatives[i], ranking.value, s.corpus.documents, s.tools.text, s.contract);
      OneMoreBuilt(builds, cases, i, c);
      cases := cases + [c];
    }
    BuiltNegativesRank(s, cases);
    return Ok(cases);
  }

  method RunDimension(s: Setting) returns (r: Result<DimensionResult, VectorError>)
    requires Fits(s)
    ensures r.Ok? <==> PositivesRank(s) && NegativesRank(s)
    ensures r.Ok? ==> IsRun(s, r.value)
  {
    var positives := BuildPositives(s);
    if positives.Err? { return Err(positives.error); }
    var negatives := BuildNegatives(s);
    if negatives.Err? { return Err(negatives.error); }
    return Ok(Conclude(|s.corpus.documents|, positives.value, negatives.value));
  }
}
