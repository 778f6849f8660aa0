/** The controlled calibration fixtures and their validation. */
module Fixtures {
  import opened Wrappers
  import opened Sorting

  datatype Document = Document(
    fixtureId: string, sourceType: string, title: string, content: string, authoritativeFacts: seq<string>)

  datatype PositiveQuery = PositiveQuery(
    queryId: string, languageClass: string, query: string, expectedSourceId: string, expectedFact: string)

  datatype NegativeQuery = NegativeQuery(negativeQueryId: string, query: string)

  /** The lower-cased tokens of a text, and whether it may hold personal data: regular expressions. */
  datatype Text = Text(tokens: string -> seq<string>, pii: string -> bool)

  datatype Corpus = Corpus(
    documents: seq<Document>, positives: seq<PositiveQuery>, negatives: seq<NegativeQuery>)

  datatype Fault =
    | BadId
    | Incomplete
    | PossiblePii
    | SourceMissing
    | Overlaps(fixtureId: string, tokens: seq<string>)

  /** The index of a fault counts from the start of its own list. */
  datatype FixtureError =
    | TooFewDocuments
    | InDocument(index: nat, fault: Fault)
    | InPositive(index: nat, fault: Fault)
    | InNegative(index: nat, fault: Fault)

  // ---- Overlap -------------------------------------------------------------------------------

  function Shared(tokens: seq<string>, source: set<string>): (r: seq<string>)
    ensures forall t :: t in r <==> t in tokens && t in source
  {
    if tokens == [] then []
    else (if tokens[0] in source then [tokens[0]] else []) + Shared(tokens[1..], source)
  }

  function SearchText(d: Document): string {
    d.title + " " + d.content
  }

  function OverlapTokens(text: Text, query: string, source: string): (r: seq<string>)
    ensures Distinct(r)
    ensures forall t :: t in r <==> t in text.tokens(query) && t in text.tokens(source)
  {
    Unique(Shared(text.tokens(query), Elements(text.tokens(source))))
  }

  // ---- Faults --------------------------------------------------------------------------------

  function DocumentFault(d: Document, seen: set<string>, text: Text): Option<Fault> {
    if d.fixtureId == "" || d.fixtureId in seen then Some(BadId)
    else if d.sourceType == "" || d.title == "" || d.content == "" || d.authoritativeFacts == [] then Some(Incomplete)
    else if text.pii(SearchText(d)) then Some(PossiblePii)
    else None
  }

  function PositiveFault(p: PositiveQuery, seen: set<string>, sources: set<string>, text: Text): Option<Fault> {
    if p.queryId == "" || p.queryId in seen then Some(BadId)
    else if p.query == "" || p.languageClass == "" || p.expectedSourceId == "" || p.expectedFact == "" then
      Some(Incomplete)
    else if text.pii(p.query) then Some(PossiblePii)
    else if p.expectedSourceId !in sources then Some(SourceMissing)
    else None
  }

  function NegativeFault(n: NegativeQuery, seen: set<string>, documents: seq<Document>, text: Text): Option<Fault> {
    if n.negativeQueryId == "" || n.negativeQueryId in seen then Some(BadId)
    else if n.query == "" then Some(Incomplete)
    else if text.pii(n.query) then Some(PossiblePii)
    else FirstOverlap(n.query, documents, text)
  }

  /** The overlap with the first document that has one. */
  function FirstOverlap(query: string, documents: seq<Document>, text: Text): (r: Option<Fault>)
    ensures r == None <==> forall d | d in documents :: OverlapTokens(text, query, SearchText(d)) == []
    decreases |documents|
  {
    if documents == [] then None
    else
      var shared := OverlapTokens(text, query, SearchText(documents[0]));
      if shared != [] then Some(Overlaps(documents[0].fixtureId, shared))
      else
        assert documents == [documents[0]] + documents[1..];
        FirstOverlap(query, documents[1..], text)
  }

  function DocumentIds(documents: seq<Document>): (r: seq<string>) {
    seq(|documents|, i requires 0 <= i < |documents| => documents[i].fixtureId)
  }

  ghost function PositiveIds(positives: seq<PositiveQuery>): (r: seq<string>) {
    seq(|positives|, i requires 0 <= i < |positives| => positives[i].queryId)
  }

  ghost function NegativeIds(negatives: seq<NegativeQuery>): (r: seq<string>) {
    seq(|negatives|, i requires 0 <= i < |negatives| => negatives[i].negativeQueryId)
  }

  /** The fault of entry `i` when all before it have been read. */
  ghost function FaultOfDocument(c: Corpus, text: Text, i: nat): Option<Fault>
    requires i < |c.documents|
  {
    DocumentFault(c.documents[i], Elements(DocumentIds(c.documents)[..i]), text)
  }

  ghost function FaultOfPositive(c: Corpus, text: Text, i: nat): Option<Fault>
    requires i < |c.positives|
  {
    PositiveFault(c.positives[i], Elements(PositiveIds(c.positives)[..i]), Elements(DocumentIds(c.documents)), text)
  }

  ghost function FaultOfNegative(c: Corpus, text: Text, i: nat): Option<Fault>
    requires i < |c.negatives|
  {
    NegativeFault(c.negatives[i], Elements(NegativeIds(c.negatives)[..i]), c.documents, text)
  }

  ghost predicate DocumentsClean(c: Corpus, text: Text, n: nat)
    requires n <= |c.documents|
  {
    forall i | 0 <= i < n :: FaultOfDocument(c, text, i) == None
  }

  ghost predicate PositivesClean(c: Corpus, text: Text, n: nat)
    requires n <= |c.positives|
  {
    forall i | 0 <= i < n :: FaultOfPositive(c, text, i) == None
  }

  ghost predicate NegativesClean(c: Corpus, text: Text, n: nat)
    requires n <= |c.negatives|
  {
    forall i | 0 <= i < n :: FaultOfNegative(c, text, i) == None
  }

  /** The error is the first in reading order: documents, then positives, then negatives. */
  ghost predicate FirstError(c: Corpus, text: Text, e: FixtureError) {
    match e
    case TooFewDocuments => |c.documents| < 8
    case InDocument(i, fault) =>
      && |c.documents| >= 8 && i < |c.documents|
      && DocumentsClean(c, text, i) && FaultOfDocument(c, text, i) == Some(fault)
    case InPositive(i, fault) =>
      && |c.documents| >= 8 && DocumentsClean(c, text, |c.documents|) && i < |c.positives|
      && PositivesClean(c, text, i) && FaultOfPositive(c, text, i) == Some(fault)
    case InNegative(i, fault) =>
      && |c.documents| >= 8 && DocumentsClean(c, text, |c.documents|)
      && PositivesClean(c, text, |c.positives|) && i < |c.negatives|
      && NegativesClean(c, text, i) && FaultOfNegative(c, text, i) == Some(fault)
  }

  // ---- Validation ----------------------------------------------------------------------------

  lemma {:induction false} ElementsNext(s: seq<string>, i: nat)
    requires i < |s|
    ensures Elements(s[..i + 1]) == Elements(s[..i]) + {s[i]}
  {}

  method ValidateDocuments(c: Corpus, text: Text) returns (r: Option<FixtureError>, ids: set<string>)
    requires |c.documents| >= 8
    ensures r.Some? ==> FirstError(c, text, r.value)
    ensures r.None? ==> DocumentsClean(c, text, |c.documents|) && ids == Elements(DocumentIds(c.documents))
  {
    ids := {};
    ghost var all := DocumentIds(c.documents);
    for i := 0 to |c.documents|
      invariant DocumentsClean(c, text, i) && ids == Elements(all[..i])
    {
      var fault := DocumentFault(c.documents[i], ids, text);
      if fault.Some? { return Some(InDocument(i, fault.value)), ids; }
      ElementsNext(all, i);
      ids := ids + {c.documents[i].fixtureId};
    }
    assert all[..|all|] == all;
    return None, ids;
  }

  method ValidatePositives(c: Corpus, text: Text, sources: set<string>) returns (r: Option<FixtureError>)
    requires |c.documents| >= 8 && DocumentsClean(c, text, |c.documents|)
    requires sources == Elements(DocumentIds(c.documents))
    ensures r.Some? ==> FirstError(c, text, r.value)
    ensures r.None? ==> PositivesClean(c, text, |c.positives|)
  {
    var ids := {};
    ghost var all := PositiveIds(c.positives);
    for i := 0 to |c.positives|
      invariant PositivesClean(c, text, i) && ids == Elements(all[..i])
    {
      var fault := PositiveFault(c.positives[i], ids, sources, text);
      if fault.Some? { return Some(InPositive(i, fault.value)); }
      ElementsNext(all, i);
      ids := ids + {c.positives[i].queryId};
    }
    return None;
  }

  method ValidateNegatives(c: Corpus, text: Text) returns (r: Option<FixtureError>)
    requires |c.documents| >= 8 && DocumentsClean(c, text, |c.documents|)
    requires PositivesClean(c, text, |c.positives|)
    ensures r.Some? ==> FirstError(c, text, r.value)
    ensures r.None? ==> NegativesClean(c, text, |c.negatives|)
  {
    var ids := {};
    ghost var all := NegativeIds(c.negatives);
    for i := 0 to |c.negatives|
      invariant NegativesClean(c, text, i) && ids == Elements(all[..i])
    {
      var fault := NegativeFault(c.negatives[i], ids, c.documents, text);
      if fault.Some? { return Some(InNegative(i, fault.value)); }
      ElementsNext(all, i);
      ids := ids + {c.negatives[i].negativeQueryId};
    }
    return None;
  }

  method ValidateFixtures(c: Corpus, text: Text) returns (r: Result<bool, FixtureError>)
    ensures r.Ok? <==> ValidCorpus(c, text)
    ensures r.Err? ==> FirstError(c, text, r.error)
  {
    CleanMeansValid(c, text);
    if |c.documents| < 8 { return Err(TooFewDocuments); }
    var fault, ids := ValidateDocuments(c, text);
    if fault.Some? { return Err(fault.value); }
    fault := ValidatePositives(c, text, ids);
    if fault.Some? { return Err(fault.value); }
    fault := ValidateNegatives(c, text);
    if fault.Some? { return Err(fault.value); }
    return Ok(true);
  }

  // ---- What a validated corpus is ------------------------------------------------------------

  ghost predicate CompleteDocument(d: Document, text: Text) {
    && d.fixtureId != "" && d.sourceType != "" && d.title != "" && d.content != "" && d.authoritativeFacts != []
    && !text.pii(d.title + " " + d.content)
  }

  ghost predicate CompletePositive(p: PositiveQuery, text: Text) {
    && p.queryId != "" && p.query != "" && p.languageClass != "" && p.expectedSourceId != "" && p.expectedFact != ""
    && !text.pii(p.query)
  }

  ghost predicate CompleteNegative(n: NegativeQuery, text: Text) {
    n.negativeQueryId != "" && n.query != "" && !text.pii(n.query)
  }

  ghost predicate ShareNoToken(text: Text, a: string, b: string) {
    forall t | t in text.tokens(a) :: t !in text.tokens(b)
  }

  ghost predicate DocumentsFit(c: Corpus, text: Text) {
    Distinct(DocumentIds(c.documents)) && forall d | d in c.documents :: CompleteDocument(d, text)
  }

  ghost predicate PositivesFit(c: Corpus, text: Text) {
    && Distinct(PositiveIds(c.positives))
    && forall p | p in c.positives :: CompletePositive(p, text) && p.expectedSourceId in DocumentIds(c.documents)
  }

  ghost predicate NegativeFits(c: Corpus, text: Text, n: NegativeQuery) {
    && CompleteNegative(n, text)
    && forall d | d in c.documents :: ShareNoToken(text, n.query, d.title + " " + d.content)
  }

  ghost predicate NegativesFit(c: Corpus, text: Text) {
    Distinct(NegativeIds(c.negatives)) && forall n | n in c.negatives :: NegativeFits(c, text, n)
  }

  /** Ids are unique, entries complete, sources known, and negatives share no token with any document. */
  ghost predicate ValidCorpus(c: Corpus, text: Text) {
    |c.documents| >= 8 && DocumentsFit(c, text) && PositivesFit(c, text) && NegativesFit(c, text)
  }

  /** Ids are new to all before them exactly when they are pairwise distinct. */
  lemma {:induction false} NewIdsAreDistinct(ids: seq<string>)
    ensures Distinct(ids) <==> forall i | 0 <= i < |ids| :: ids[i] !in Elements(ids[..i])
  {}

  lemma {:induction false} NoOverlapMeans(c: Corpus, text: Text, query: string)
    ensures FirstOverlap(query, c.documents, text) == None
       <==> forall d | d in c.documents :: ShareNoToken(text, query, SearchText(d))
  {
    forall d ensures OverlapTokens(text, query, SearchText(d)) == [] <==> ShareNoToken(text, query, SearchText(d)) {
      var shared := OverlapTokens(text, query, SearchText(d));
      if shared != [] { assert shared[0] in shared; }
    }
  }

  lemma {:induction false} DocumentsCleanMeans(c: Corpus, text: Text)
    ensures DocumentsClean(c, text, |c.documents|) <==> DocumentsFit(c, text)
  {
    NewIdsAreDistinct(DocumentIds(c.documents));
    assert forall i | 0 <= i < |c.documents| ::
      FaultOfDocument(c, text, i) == None <==>
        && DocumentIds(c.documents)[i] !in Elements(DocumentIds(c.documents)[..i])
        && CompleteDocument(c.documents[i], text);
  }

  lemma {:induction false} PositivesCleanMeans(c: Corpus, text: Text)
    ensures PositivesClean(c, text, |c.positives|) <==> PositivesFit(c, text)
  {
    NewIdsAreDistinct(PositiveIds(c.positives));
    assert forall i | 0 <= i < |c.positives| ::
      FaultOfPositive(c, text, i) == None <==>
        && PositiveIds(c.positives)[i] !in Elements(PositiveIds(c.positives)[..i])
        && CompletePositive(c.positives[i], text)
        && c.positives[i].expectedSourceId in DocumentIds(c.documents);
  }

  lemma {:induction false} NegativesCleanMeans(c: Corpus, text: Text)
    ensures NegativesClean(c, text, |c.negatives|) <==> NegativesFit(c, text)
  {
    NewIdsAreDistinct(NegativeIds(c.negatives));
    forall i | 0 <= i < |c.negatives|
      ensures FaultOfNegative(c, text, i) == None <==>
        && NegativeIds(c.negatives)[i] !in Elements(NegativeIds(c.negatives)[..i])
        && NegativeFits(c, text, c.negatives[i])
    {
      NoOverlapMeans(c, text, c.negatives[i].query);
    }
  }

  /** No fault anywhere is the same as a well-formed corpus, and leaves no first error. */
  lemma {:induction false} CleanMeansValid(c: Corpus, text: Text)
    ensures ValidCorpus(c, text) <==>
      && |c.documents| >= 8 && DocumentsClean(c, text, |c.documents|)
      && PositivesClean(c, text, |c.positives|) && NegativesClean(c, text, |c.negatives|)
  {
    DocumentsCleanMeans(c, text);
    PositivesCleanMeans(c, text);
    NegativesCleanMeans(c, text);
  }

  // ---- What a fault says ---------------------------------------------------------------------

  /** The first check of a document that fails; `seen` are the ids before it. */
  lemma {:induction false} DocumentFaultIs(d: Document, seen: set<string>, text: Text)
    ensures
      var fault, known := DocumentFault(d, seen, text), d.fixtureId == "" || d.fixtureId in seen;
      var whole := d.sourceType != "" && d.title != "" && d.content != "" && d.authoritativeFacts != [];
      && (fault == Some(BadId) <==> known)
      && (fault == Some(Incomplete) <==> !known && !whole)
      && (fault == Some(PossiblePii) <==> !known && whole && text.pii(d.title + " " + d.content))
      && (fault == None <==> !known && CompleteDocument(d, text))
  {}

  /** The first check of a positive query that fails. */
  lemma {:induction false} PositiveFaultIs(p: PositiveQuery, seen: set<string>, sources: set<string>, text: Text)
    ensures
      var fault, known := PositiveFault(p, seen, sources, text), p.queryId == "" || p.queryId in seen;
      var whole := p.query != "" && p.languageClass != "" && p.expectedSourceId != "" && p.expectedFact != "";
      && (fault == Some(BadId) <==> known)
      && (fault == Some(Incomplete) <==> !known && !whole)
      && (fault == Some(PossiblePii) <==> !known && whole && text.pii(p.query))
      && (fault == Some(SourceMissing) <==> !known && CompletePositive(p, text) && p.expectedSourceId !in sources)
      && (fault == None <==> !known && CompletePositive(p, text) && p.expectedSourceId in sources)
  {}

  /** The first document with which the query shares a token. */
  ghost predicate FirstSharing(query: string, documents: seq<Document>, text: Text, k: nat) {
    && k < |documents| && !ShareNoToken(text, query, documents[k].title + " " + documents[k].content)
    && forall j | 0 <= j < k :: ShareNoToken(text, query, documents[j].title + " " + documents[j].content)
  }

  lemma {:induction false} NoTokenShared(text: Text, query: string, source: string)
    ensures OverlapTokens(text, query, source) == [] <==> ShareNoToken(text, query, source)
  {
    var shared := OverlapTokens(text, query, source);
    if shared != [] { assert shared[0] in shared; }
  }

  lemma {:induction false} LaterSharing(query: string, documents: seq<Document>, text: Text, k: nat)
    requires FirstSharing(query, documents, text, k) && k > 0
    ensures FirstSharing(query, documents[1..], text, k - 1)
    ensures ShareNoToken(text, query, documents[0].title + " " + documents[0].content)
  {
    assert forall j | 0 <= j < k :: documents[1..][j] == documents[j + 1];
  }

  /** An overlap names that document, and the tokens shared with it. */
  lemma {:induction false} OverlapIsFirst(query: string, documents: seq<Document>, text: Text, k: nat)
    requires FirstSharing(query, documents, text, k)
    ensures
      var d := documents[k];
      FirstOverlap(query, documents, text) ==
        Some(Overlaps(d.fixtureId, OverlapTokens(text, query, d.title + " " + d.content)))
    decreases k
  {
    if k > 0 {
      LaterSharing(query, documents, text, k);
      OverlapIsFirst(query, documents[1..], text, k - 1);
      OverlapIsLater(query, documents, text);
    } else {
      OverlapIsHere(query, documents, text);
    }
  }

  lemma {:induction false} OverlapIsLater(query: string, documents: seq<Document>, text: Text)
    requires documents != [] && ShareNoToken(text, query, documents[0].title + " " + documents[0].content)
    ensures FirstOverlap(query, documents, text) == FirstOverlap(query, documents[1..], text)
  {
    NoTokenShared(text, query, documents[0].title + " " + documents[0].content);
  }

  lemma {:induction false} OverlapIsHere(query: string, documents: seq<Document>, text: Text)
    requires documents != [] && !ShareNoToken(text, query, documents[0].title + " " + documents[0].content)
    ensures
      var d := documents[0];
      FirstOverlap(query, documents, text) ==
        Some(Overlaps(d.fixtureId, OverlapTokens(text, query, d.title + " " + d.content)))
  {
    NoTokenShared(text, query, documents[0].title + " " + documents[0].content);
  }

  /** The first check of a negative query that fails. */
  lemma {:induction false} NegativeFaultIs(
      n: NegativeQuery, seen: set<string>, documents: seq<Document>, text: Text, k: nat)
    ensures
      var fault, known := NegativeFault(n, seen, documents, text), n.negativeQueryId == "" || n.negativeQueryId in seen;
      && (fault == Some(BadId) <==> known)
      && (fault == Some(Incomplete) <==> !known && n.query == "")
      && (fault == Some(PossiblePii) <==> !known && n.query != "" && text.pii(n.query))
      && (!known && CompleteNegative(n, text) && FirstSharing(n.query, documents, text, k) ==>
            fault == Some(Overlaps(
              documents[k].fixtureId,
              OverlapTokens(text, n.query, documents[k].title + " " + documents[k].content))))
  {
    if FirstSharing(n.query, documents, text, k) { OverlapIsFirst(n.query, documents, text, k); }
    OverlapsOnly(n.query, documents, text);
  }

  lemma {:induction false} OverlapsOnly(query: string, documents: seq<Document>, text: Text)
    ensures FirstOverlap(query, documents, text).Some? ==> FirstOverlap(query, documents, text).value.Overlaps?
    decreases |documents|
  {
    if documents != [] { OverlapsOnly(query, documents[1..], text); }
  }

  /** Where a token first stands. */
  ghost function FirstAt(tokens: seq<string>, t: string): nat {
    if tokens == [] || tokens[0] == t then 0 else 1 + FirstAt(tokens[1..], t)
  }

  /** The shared tokens stand in the order in which the query first has them. */
  lemma {:induction false} OverlapInOrder(text: Text, query: string, source: string, i: nat, j: nat)
    requires i < j < |OverlapTokens(text, query, source)|
    ensures
      var shared := OverlapTokens(text, query, source);
      FirstAt(text.tokens(query), shared[i]) < FirstAt(text.tokens(query), shared[j])
  {
    var tokens, known := text.tokens(query), Elements(text.tokens(source));
    var kept := Shared(tokens, known);
    UniqueInOrder(kept, i, j);
    SharedInOrder(tokens, known, Unique(kept)[i], Unique(kept)[j]);
  }

  lemma {:induction false} FirstAtInside(tokens: seq<string>, t: string)
    ensures t in tokens <==> FirstAt(tokens, t) < |tokens|
    ensures t !in tokens ==> FirstAt(tokens, t) == |tokens|
  {
    if tokens != [] && tokens[0] != t {
      FirstAtInside(tokens[1..], t);
      assert tokens == [tokens[0]] + tokens[1..];
    }
  }

  lemma {:induction false} FirstAtPrefix(tokens: seq<string>, last: string, t: string)
    ensures t in tokens ==> FirstAt(tokens + [last], t) == FirstAt(tokens, t)
    ensures t == last && t !in tokens ==> FirstAt(tokens + [last], t) == |tokens|
  {
    if tokens != [] {
      assert (tokens + [last])[0] == tokens[0] && (tokens + [last])[1..] == tokens[1..] + [last];
      FirstAtPrefix(tokens[1..], last, t);
      assert tokens == [tokens[0]] + tokens[1..];
    }
  }

  lemma {:induction false} UniqueInOrder(s: seq<string>, i: nat, j: nat)
    requires i < j < |Unique(s)|
    ensures FirstAt(s, Unique(s)[i]) < FirstAt(s, Unique(s)[j])
    decreases |s|
  {
    if s != [] {
      var init, last := s[..|s| - 1], s[|s| - 1];
      var others := Unique(init);
      assert s == init + [last];
      FirstAtPrefix(init, last, Unique(s)[i]);
      FirstAtPrefix(init, last, Unique(s)[j]);
      FirstAtInside(init, Unique(s)[i]);
      if j < |others| { UniqueInOrder(init, i, j); }
      assert others != [] ==> Unique(s)[i] in others;
    }
  }

  lemma {:induction false} SharedInOrder(tokens: seq<string>, known: set<string>, a: string, b: string)
    requires a in Shared(tokens, known) && b in Shared(tokens, known)
    requires FirstAt(Shared(tokens, known), a) < FirstAt(Shared(tokens, known), b)
    ensures FirstAt(tokens, a) < FirstAt(tokens, b)
  {
    var rest := Shared(tokens[1..], known);
    if tokens[0] in known {
      assert Shared(tokens, known) == [tokens[0]] + rest && Shared(tokens, known)[1..] == rest;
    } else {
      assert Shared(tokens, known) == rest;
    }
    if tokens[0] != a && tokens[0] != b { SharedInOrder(tokens[1..], known, a, b); }
  }
}
