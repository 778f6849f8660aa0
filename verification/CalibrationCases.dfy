/** What the cases, the summary and the score matrix of a calibration run say, read off the rankings. */
module CalibrationCases {
  import opened Wrappers
  import opened Sorting
  import opened JsNumbers
  import opened Fixtures
  import opened Acceptance
  import opened Calibration

  /** The first result with the id. */
  ghost predicate IsFirst(ranked: seq<Ranked>, id: string, k: nat) {
    k < |ranked| && ranked[k].fixtureId == id && forall j | 0 <= j < k :: ranked[j].fixtureId != id
  }

  /** A positive case gives the rank and the score of its source, and passes at the top with a quarter or more. */
  lemma {:induction false} PositiveCaseReads(p: PositiveQuery, ranked: seq<Ranked>, k: nat)
    ensures
      var c := PositiveCaseOf(p, ranked);
      if IsFirst(ranked, p.expectedSourceId, k) then
        var rank := Number(Fin((k + 1) as real));
        && c.evidence == PositiveEvidence(true, rank, rank, Number(Fin(ranked[k].score)))
        && (c.pass <==> k == 0 && ranked[0].score >= 0.25)
      else (forall x | x in ranked :: x.fixtureId != p.expectedSourceId) ==>
        c.evidence == PositiveEvidence(false, Null, Null, Null) && !c.pass
    ensures
      var c := PositiveCaseOf(p, ranked);
      && c.queryId == p.queryId && c.expectedSourceId == p.expectedSourceId && c.ranked == ranked
      && c.topScore == (if ranked == [] then Null else Number(Fin(ranked[0].score)))
      && c.topSourceId == (if ranked == [] then None else Some(ranked[0].fixtureId))
      && c.top1Margin == (if |ranked| < 2 then None else Some(ranked[0].score - ranked[1].score))
  {
    var i := FindId(ranked, p.expectedSourceId);
    if IsFirst(ranked, p.expectedSourceId, k) {
      assert i == k;
    } else if i < |ranked| {
      assert ranked[i] in ranked;
    }
  }

  lemma {:induction false} AllOverlapsAre(text: Text, query: string, documents: seq<Document>, t: string)
    ensures t in AllOverlaps(text, query, documents) <==>
      t in text.tokens(query) && exists d :: d in documents && t in text.tokens(d.title + " " + d.content)
    decreases |documents|
  {
    if documents != [] {
      AllOverlapsAre(text, query, documents[1..], t);
      assert documents == [documents[0]] + documents[1..];
    }
  }

  /**
   A negative case lists each token its query shares with any document once, and carries the verdict of the
   contract it was given; without one it is not judged.
   */
  lemma {:induction false} NegativeCaseReads(
      n: NegativeQuery, ranked: seq<Ranked>, documents: seq<Document>, text: Text, contract: Option<Contract>)
    ensures
      var overlap := NegativeCaseOf(n, ranked, documents, text, contract).evidence.lexicalOverlap;
      && Distinct(overlap)
      && forall t :: t in overlap <==>
           t in text.tokens(n.query) && exists d :: d in documents && t in text.tokens(d.title + " " + d.content)
    ensures
      var c := NegativeCaseOf(n, ranked, documents, text, contract);
      var top := if ranked == [] then Null else Number(Fin(ranked[0].score));
      var verdict := EvaluateNegative(top, c.evidence.lexicalOverlap != [], contract);
      && c.negativeQueryId == n.negativeQueryId && c.ranked == ranked && c.evidence.topScore == top
      && c.topSourceId == (if ranked == [] then None else Some(ranked[0].fixtureId))
      && c.reason == verdict.reason && c.pass == (if contract.None? then None else Some(verdict.pass))
      && (c.acceptanceEvaluated <==> contract.Some? && contract.value.ready)
  {
    var all := AllOverlaps(text, n.query, documents);
    forall t
      ensures t in Unique(all) <==>
        t in text.tokens(n.query) && exists d :: d in documents && t in text.tokens(d.title + " " + d.content)
    {
      AllOverlapsAre(text, n.query, documents, t);
    }
  }

  /** How many of the cases meet a condition. */
  ghost function Tally<T>(s: seq<T>, p: T -> bool): nat {
    if s == [] then 0 else Tally(s[..|s| - 1], p) + if p(s[|s| - 1]) then 1 else 0
  }

  lemma {:induction false} CountJoins<T>(p: T -> bool, a: seq<T>, b: seq<T>)
    ensures Count(p, a + b) == Count(p, a) + Count(p, b)
  {
    if a == [] {
      assert a + b == b;
    } else {
      assert (a + b)[0] == a[0] && (a + b)[1..] == a[1..] + b;
      CountJoins(p, a[1..], b);
    }
  }

  lemma {:induction false} CountIsTally<T>(p: T -> bool, q: T -> bool, s: seq<T>)
    requires forall x :: p(x) == q(x)
    ensures Count(p, s) == Tally(s, q)
    decreases |s|
  {
    if s != [] {
      var init, last := s[..|s| - 1], s[|s| - 1];
      assert s == init + [last] && [last][1..] == [];
      CountJoins(p, init, [last]);
      CountIsTally(p, q, init);
    }
  }

  /** A share of the cases; none of no cases. */
  ghost predicate IsShare(rate: Option<real>, part: nat, total: nat) {
    if total == 0 then rate == None else rate == Some(part as real / total as real)
  }

  ghost const FIRST := (c: PositiveCase) => c.evidence.expectedRank == Number(Fin(1.0))
  ghost const PASSING := (c: PositiveCase) => c.pass
  ghost const JUDGED := (c: NegativeCase) => c.acceptanceEvaluated
  ghost const HELD := (c: NegativeCase) => c.acceptanceEvaluated && c.pass == Some(true)

  /** The rates of a summary are shares of the positives. */
  lemma {:induction false} PositiveRates(positives: seq<PositiveCase>, negatives: seq<NegativeCase>)
    ensures IsShare(Summarize(positives, negatives).positiveTop1Accuracy, Tally(positives, FIRST), |positives|)
    ensures IsShare(Summarize(positives, negatives).positiveThresholdPassRate, Tally(positives, PASSING), |positives|)
  {
    CountIsTally(RanksTop, FIRST, positives);
    CountIsTally(Passes, PASSING, positives);
  }

  /** Those of the negatives are shares of the ones that were judged. */
  lemma {:induction false} NegativeRates(positives: seq<PositiveCase>, negatives: seq<NegativeCase>)
    ensures
      var s, judged := Summarize(positives, negatives), Tally(negatives, JUDGED);
      && IsShare(s.negativeAcceptancePassRate, Tally(negatives, HELD), judged)
      && (s.negativeAcceptanceEvaluated <==> negatives != [] && judged == |negatives|)
  {
    CountIsTally(Evaluated, JUDGED, negatives);
    CountIsTally(EvaluatedAndPassed, HELD, negatives);
  }
}
