/** The structural proof of a re-index: points of the vector store against the authoritative sources. */
module SourceIntegrity {
  import opened Wrappers
  import opened Sorting

  datatype Source = Source(sourceId: string, shopId: string, sourceType: string)

  /**
   A content point's payload; `documentId` is empty when missing. `content` says that the point is no
   manifest, its embedding space is the collection's, and its text is a string that is not blank.
   */
  datatype Point = Point(documentId: string, shopId: string, sourceType: string, content: bool)

  datatype IntegrityError = SourcesUnavailable | WrongDimensions | BadIdentity | Mismatch | NoTenants | BadPayload

  /** `new Map(records.map(...))`: a repeated id keeps its last record. */
  function ById(sources: seq<Source>): map<string, Source> {
    if sources == [] then map[]
    else
      var last := sources[|sources| - 1];
      ById(sources[..|sources| - 1])[last.sourceId := last]
  }

  function IdList(points: seq<Point>): (r: seq<string>)
    ensures |r| == |points| && forall i | 0 <= i < |points| :: r[i] == points[i].documentId
  {
    seq(|points|, i requires 0 <= i < |points| => points[i].documentId)
  }

  function DocumentIds(points: seq<Point>): set<string> {
    Elements(IdList(points))
  }

  predicate PayloadOk(p: Point, byId: map<string, Source>, shopIds: set<string>)
    requires p.documentId in byId
  {
    && p.content && p.shopId in shopIds
    && p.shopId == byId[p.documentId].shopId && p.sourceType == byId[p.documentId].sourceType
  }

  ghost predicate DistinctSources(sources: seq<Source>) {
    forall i, j | 0 <= i < j < |sources| :: sources[i].sourceId != sources[j].sourceId
  }

  ghost predicate Matches(p: Point, s: Source) {
    p.documentId == s.sourceId && p.shopId == s.shopId && p.sourceType == s.sourceType
  }

  /**
   Ids are unique on both sides, there are as many points as sources, and every point is its source's,
   with equal shop and type. `EverySourceHasItsPoint` adds the other direction.
   */
  ghost predicate OneToOne(sources: seq<Source>, points: seq<Point>) {
    && |points| == |sources| && DistinctSources(sources)
    && Distinct(IdList(points))
    && (forall j | 0 <= j < |points| :: exists i :: 0 <= i < |sources| && Matches(points[j], sources[i]))
  }

  /** The facts about single points that the check also asks for. */
  ghost predicate PointsSound(points: seq<Point>, shopIds: set<string>) {
    forall p | p in points :: p.documentId != "" && p.content && p.shopId in shopIds
  }

  /** Every point names a source, and no two the same. */
  ghost predicate Named(points: seq<Point>) {
    && (forall j | 0 <= j < |points| :: points[j].documentId != "")
    && (forall i, j | 0 <= i < j < |points| :: points[i].documentId != points[j].documentId)
  }

  /** Every point names a source that is stored. */
  ghost predicate Known(sources: seq<Source>, points: seq<Point>) {
    forall j | 0 <= j < |points| :: exists i :: 0 <= i < |sources| && sources[i].sourceId == points[j].documentId
  }

  ghost predicate PointOk(sources: seq<Source>, shopIds: set<string>, p: Point) {
    p.content && p.shopId in shopIds && exists i :: 0 <= i < |sources| && Matches(p, sources[i])
  }

  /** What each error says: the first of the conditions that fails. */
  ghost predicate Fault(
    sources: seq<Source>, points: seq<Point>, shopIds: set<string>, expectedCount: nat,
    bindingDimensions: Option<nat>, vectorSize: nat, e: IntegrityError)
  {
    var enough, sized := |sources| == expectedCount, bindingDimensions == Some(vectorSize);
    var paired := |points| == expectedCount && Known(sources, points);
    match e
    case SourcesUnavailable => !enough
    case WrongDimensions => enough && !sized
    case BadIdentity => enough && sized && !Named(points)
    case Mismatch => enough && sized && Named(points) && !paired
    case NoTenants => enough && sized && Named(points) && paired && shopIds == {}
    case BadPayload =>
      && enough && sized && Named(points) && paired && shopIds != {}
      && exists p :: p in points && !PointOk(sources, shopIds, p)
  }

  lemma {:induction false} NamedIs(points: seq<Point>)
    ensures Named(points) <==> "" !in DocumentIds(points) && |DocumentIds(points)| == |points|
  {
    DistinctBySize(IdList(points));
    if "" in DocumentIds(points) {
      var i :| 0 <= i < |points| && IdList(points)[i] == "";
      assert points[i].documentId == "";
    } else {
      forall j | 0 <= j < |points| ensures points[j].documentId != "" {
        assert IdList(points)[j] in DocumentIds(points);
      }
    }
    assert Distinct(IdList(points)) <==>
      forall i, j | 0 <= i < j < |points| :: points[i].documentId != points[j].documentId;
  }

  lemma {:induction false} KnownIs(sources: seq<Source>, points: seq<Point>)
    ensures Known(sources, points) <==> forall id | id in DocumentIds(points) :: id in ById(sources)
  {
    ByIdIsStored(sources);
    if Known(sources, points) {
      forall id | id in DocumentIds(points) ensures id in ById(sources) {
        var j :| 0 <= j < |points| && IdList(points)[j] == id;
        var i :| 0 <= i < |sources| && sources[i].sourceId == points[j].documentId;
        assert sources[i] in sources;
      }
    }
    if forall id | id in DocumentIds(points) :: id in ById(sources) {
      forall j | 0 <= j < |points|
        ensures exists i :: 0 <= i < |sources| && sources[i].sourceId == points[j].documentId
      {
        assert IdList(points)[j] in DocumentIds(points);
        var s := ById(sources)[points[j].documentId];
        var i :| 0 <= i < |sources| && sources[i] == s;
      }
    }
  }

  lemma {:induction false} PayloadIs(sources: seq<Source>, shopIds: set<string>, p: Point)
    requires DistinctSources(sources) && p.documentId in ById(sources)
    ensures PayloadOk(p, ById(sources), shopIds) <==> PointOk(sources, shopIds, p)
  {
    ByIdIsStored(sources);
    var s := ById(sources)[p.documentId];
    var k :| 0 <= k < |sources| && sources[k] == s;
    if i :| 0 <= i < |sources| && Matches(p, sources[i]) { ByIdOfDistinct(sources, i); }
  }

  /**
   The check, which looks at points one by one and only counts the sources, succeeds exactly when the
   correspondence is one to one.
   */
  method AssertRealSourceIntegrity(
    sources: seq<Source>, points: seq<Point>, shopIds: set<string>, expectedCount: nat,
    bindingDimensions: Option<nat>, vectorSize: nat)
    returns (r: Result<(), IntegrityError>)
    ensures r.Ok? <==>
      && |sources| == expectedCount && bindingDimensions == Some(vectorSize) && shopIds != {}
      && OneToOne(sources, points) && PointsSound(points, shopIds)
    ensures r.Err? ==> Fault(sources, points, shopIds, expectedCount, bindingDimensions, vectorSize, r.error)
  {
    NamedIs(points);
    KnownIs(sources, points);
    if |sources| != expectedCount { return Err(SourcesUnavailable); }
    if bindingDimensions != Some(vectorSize) { return Err(WrongDimensions); }
    var byId := ById(sources);
    var ids := DocumentIds(points);
    if "" in ids || |ids| != |points| {
      RepeatedId(points);
      return Err(BadIdentity);
    }
    if |points| != expectedCount || exists id | id in ids :: id !in byId {
      StrangeId(sources, points);
      return Err(Mismatch);
    }
    if |shopIds| == 0 { return Err(NoTenants); }
    CountingForces(sources, points);
    for i := 0 to |points|
      invariant forall j | 0 <= j < i :: points[j].documentId in byId && PayloadOk(points[j], byId, shopIds)
    {
      assert IdList(points)[i] in ids;
      if !PayloadOk(points[i], byId, shopIds) {
        BadPayloadBreaks(sources, points, shopIds, i);
        PayloadIs(sources, shopIds, points[i]);
        return Err(BadPayload);
      }
    }
    GoodPayloadsMatch(sources, points, shopIds);
    r := Ok(());
  }

  lemma {:induction false} ByIdIsStored(sources: seq<Source>)
    ensures forall id | id in ById(sources) :: ById(sources)[id] in sources && ById(sources)[id].sourceId == id
    ensures forall s | s in sources :: s.sourceId in ById(sources)
    decreases |sources|
  {
    if sources != [] {
      var init, last := sources[..|sources| - 1], sources[|sources| - 1];
      ByIdIsStored(init);
      assert sources == init + [last];
    }
  }

  /** Fewer keys than records, unless no two records share an id. */
  lemma {:induction false} ByIdCounts(sources: seq<Source>)
    ensures |ById(sources)| <= |sources|
    ensures |ById(sources)| == |sources| ==> DistinctSources(sources)
    decreases |sources|
  {
    if sources != [] {
      var init, last := sources[..|sources| - 1], sources[|sources| - 1];
      ByIdCounts(init);
      ByIdIsStored(init);
      assert sources == init + [last];
      assert ById(sources).Keys == ById(init).Keys + {last.sourceId};
      if last.sourceId in ById(init) {
        assert ById(sources).Keys == ById(init).Keys;
      } else {
        assert forall i | 0 <= i < |init| :: init[i] in init;
      }
    }
  }

  lemma {:induction false} ByIdOfDistinct(sources: seq<Source>, i: nat)
    requires DistinctSources(sources) && i < |sources|
    ensures sources[i].sourceId in ById(sources) && ById(sources)[sources[i].sourceId] == sources[i]
  {
    ByIdIsStored(sources);
    assert sources[i] in sources;
    var s := ById(sources)[sources[i].sourceId];
    var j :| 0 <= j < |sources| && sources[j] == s;
    assert sources[i].sourceId == sources[j].sourceId;
  }

  lemma {:induction false} DistinctBySize(s: seq<string>)
    ensures |Elements(s)| <= |s|
    ensures |Elements(s)| == |s| <==> Distinct(s)
    decreases |s|
  {
    if s != [] {
      var init, last := s[..|s| - 1], s[|s| - 1];
      DistinctBySize(init);
      assert s == init + [last];
      assert Elements(s) == Elements(init) + {last};
      if last in init {
        assert Elements(s) == Elements(init);
        var i :| 0 <= i < |init| && init[i] == last;
        assert s[i] == s[|s| - 1];
      }
    }
  }

  lemma {:induction false} RepeatedId(points: seq<Point>)
    requires "" in DocumentIds(points) || |DocumentIds(points)| != |points|
    ensures forall sources, shopIds :: !(OneToOne(sources, points) && PointsSound(points, shopIds))
  {
    DistinctBySize(IdList(points));
    if "" in DocumentIds(points) {
      var i :| 0 <= i < |points| && IdList(points)[i] == "";
      assert points[i] in points && points[i].documentId == "";
    }
  }

  /** Under a one-to-one correspondence every point's id is known, and leads to its own source. */
  lemma {:induction false} OneToOneLooksUp(sources: seq<Source>, points: seq<Point>, j: nat)
    requires OneToOne(sources, points) && j < |points|
    ensures points[j].documentId in ById(sources) && Matches(points[j], ById(sources)[points[j].documentId])
  {
    var i :| 0 <= i < |sources| && Matches(points[j], sources[i]);
    ByIdOfDistinct(sources, i);
  }

  lemma {:induction false} StrangeId(sources: seq<Source>, points: seq<Point>)
    requires |points| != |sources| || exists id :: id in DocumentIds(points) && id !in ById(sources)
    ensures !OneToOne(sources, points)
  {
    if OneToOne(sources, points) {
      forall id | id in DocumentIds(points) ensures id in ById(sources) {
        var j :| 0 <= j < |points| && IdList(points)[j] == id;
        OneToOneLooksUp(sources, points, j);
      }
    }
  }

  /** As many distinct ids, all known, as there are sources: every source is hit and none is repeated. */
  lemma {:induction false} CountingForces(sources: seq<Source>, points: seq<Point>)
    requires |points| == |sources| && |DocumentIds(points)| == |points|
    requires forall id | id in DocumentIds(points) :: id in ById(sources)
    ensures DistinctSources(sources) && ById(sources).Keys == DocumentIds(points)
  {
    ByIdCounts(sources);
    var ids, keys := DocumentIds(points), ById(sources).Keys;
    assert |keys| == |ById(sources)|;
    assert |keys - ids| == |keys| - |ids|;
  }

  lemma {:induction false} BadPayloadBreaks(sources: seq<Source>, points: seq<Point>, shopIds: set<string>, k: nat)
    requires k < |points| && points[k].documentId in ById(sources) && !PayloadOk(points[k], ById(sources), shopIds)
    ensures !(OneToOne(sources, points) && PointsSound(points, shopIds))
  {
    if OneToOne(sources, points) {
      OneToOneLooksUp(sources, points, k);
      assert points[k] in points;
    }
  }

  lemma {:induction false} GoodPayloadsMatch(sources: seq<Source>, points: seq<Point>, shopIds: set<string>)
    requires |points| == |sources| && |DocumentIds(points)| == |points| && "" !in DocumentIds(points)
    requires DistinctSources(sources) && ById(sources).Keys == DocumentIds(points)
    requires forall j | 0 <= j < |points| ::
      points[j].documentId in ById(sources) && PayloadOk(points[j], ById(sources), shopIds)
    ensures OneToOne(sources, points) && PointsSound(points, shopIds)
  {
    ByIdIsStored(sources);
    DistinctBySize(IdList(points));
    forall j | 0 <= j < |points| ensures exists i :: 0 <= i < |sources| && Matches(points[j], sources[i]) {
      var s := ById(sources)[points[j].documentId];
      var i :| 0 <= i < |sources| && sources[i] == s;
      assert Matches(points[j], sources[i]);
    }
    forall p | p in points ensures p.documentId != "" && p.content && p.shopId in shopIds {
      var j :| 0 <= j < |points| && points[j] == p;
      assert IdList(points)[j] in DocumentIds(points);
    }
  }

  /** With the counts equal, no source is left out: each has exactly one point. */
  lemma {:induction false} EverySourceHasItsPoint(sources: seq<Source>, points: seq<Point>, i: nat)
    requires OneToOne(sources, points) && i < |sources|
    ensures exists j :: 0 <= j < |points| && Matches(points[j], sources[i])
    ensures forall j, k | 0 <= j < |points| && 0 <= k < |points|
                          && Matches(points[j], sources[i]) && Matches(points[k], sources[i]) :: j == k
  {
    ByIdIsStored(sources);
    DistinctBySize(IdList(points));
    var ids, keys := DocumentIds(points), ById(sources).Keys;
    forall id | id in ids ensures id in keys {
      var j :| 0 <= j < |points| && IdList(points)[j] == id;
      OneToOneLooksUp(sources, points, j);
    }
    KeysCount(sources);
    assert |keys - ids| == |keys| - |ids|;
    ByIdOfDistinct(sources, i);
    assert sources[i].sourceId in ids;
    var j :| 0 <= j < |points| && IdList(points)[j] == sources[i].sourceId;
    OneToOneLooksUp(sources, points, j);
  }

  lemma {:induction false} KeysCount(sources: seq<Source>)
    ensures |ById(sources).Keys| <= |sources|
  {
    ByIdCounts(sources);
    assert |ById(sources).Keys| == |ById(sources)|;
  }
}
