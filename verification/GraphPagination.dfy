/** Following the Graph API's `after` cursors until a page has none or a cursor comes round again. */
module GraphPagination {
  import opened Wrappers
  import opened Sorting

  /** A page and the cursor it names for the next one, if any. */
  datatype Page<+R> = Page(rows: seq<R>, next: Option<string>)

  /** What the server answers to its k-th request; the same request may be answered differently later. */
  type Server<!R> = (nat, Option<string>) -> Page<R>

  /** JavaScript's `String(after)`: an absent cursor reads as the text "null". */
  function CursorText(after: Option<string>): string {
    if after.None? then "null" else after.value
  }

  /** The cursor to follow from a page, None when the loop ends there. */
  function Following<R>(page: Page<R>, after: Option<string>, seen: set<string>): Option<string> {
    if page.next.None? || page.next.value == "" then None
    else if page.next.value == CursorText(after) || page.next.value in seen then None
    else page.next
  }

  /** A server that names finitely many cursors. */
  ghost predicate Names<R(!new)>(serve: Server<R>, cursors: set<string>) {
    forall k: nat, request: Option<string> ::
      serve(k, request).next.Some? ==> serve(k, request).next.value in cursors
  }

  /** The requests the loop makes from its k-th on, at `after` and having seen `seen`. */
  ghost function Requests<R(!new)>(
      serve: Server<R>, cursors: set<string>, k: nat, after: Option<string>, seen: set<string>): seq<Option<string>>
    requires Names(serve, cursors)
    decreases cursors - seen
  {
    var next := Following(serve(k, after), after, seen);
    [after] + if next.None? then [] else Requests(serve, cursors, k + 1, next, seen + {next.value})
  }

  /** The rows of the answers to `requests`, of which the first is the k-th. */
  ghost function RowsOf<R>(serve: Server<R>, k: nat, requests: seq<Option<string>>): seq<R>
    decreases |requests|
  {
    if requests == [] then [] else serve(k, requests[0]).rows + RowsOf(serve, k + 1, requests[1..])
  }

  /** `cursor` reads like the cursor of the request, where none reads as "null". */
  ghost predicate ReadsLike(cursor: string, request: Option<string>) {
    match request
    case None => cursor == "null"
    case Some(after) => cursor == after
  }

  /** The page names a cursor to go on with: one that is not empty, nor the page's own, nor followed before. */
  ghost predicate GoesOn<R>(page: Page<R>, request: Option<string>, followed: seq<Option<string>>) {
    && page.next.Some? && page.next.value != "" && !ReadsLike(page.next.value, request)
    && page.next !in followed
  }

  /** `requests` follow `followed`, as long as the pages go on. */
  ghost predicate Follows<R(!new)>(
    serve: Server<R>, k: nat, followed: seq<Option<string>>, requests: seq<Option<string>>)
    decreases |requests|
  {
    && requests != []
    && var page := serve(k, requests[0]);
    && (GoesOn(page, requests[0], followed) <==> |requests| > 1)
    && (|requests| > 1 ==>
          requests[1] == page.next && Follows(serve, k + 1, followed + [page.next], requests[1..]))
  }

  /** The requests of the loop: the caller's own, and then each cursor named, until a page does not go on. */
  ghost predicate IsRun<R(!new)>(serve: Server<R>, initial: Option<string>, requests: seq<Option<string>>) {
    requests != [] && requests[0] == initial && Follows(serve, 0, [], requests)
  }

  lemma {:induction false} RequestsAreRun<R(!new)>(
      serve: Server<R>, cursors: set<string>, k: nat, after: Option<string>, followed: seq<Option<string>>)
    requires Names(serve, cursors) && forall c | c in followed :: c.Some?
    ensures var requests := Requests(serve, cursors, k, after, Texts(followed));
      requests[0] == after && Follows(serve, k, followed, requests)
    decreases cursors - Texts(followed)
  {
    var page, seen := serve(k, after), Texts(followed);
    var next := Following(page, after, seen);
    assert page.next.Some? ==> (page.next in followed <==> page.next.value in seen);
    assert next.Some? <==> GoesOn(page, after, followed);
    if next.Some? {
      assert Texts(followed + [next]) == seen + {next.value};
      RequestsAreRun(serve, cursors, k + 1, next, followed + [next]);
      assert Requests(serve, cursors, k, after, seen)[1..]
          == Requests(serve, cursors, k + 1, next, seen + {next.value});
    }
  }

  ghost function Texts(followed: seq<Option<string>>): set<string> {
    set c | c in followed && c.Some? :: c.value
  }

  method PaginateGraphCollection<R(!new)>(serve: Server<R>, initial: Option<string>, ghost cursors: set<string>)
    returns (rows: seq<R>)
    requires Names(serve, cursors)
    ensures rows == RowsOf(serve, 0, Requests(serve, cursors, 0, initial, {}))
    ensures IsRun(serve, initial, Requests(serve, cursors, 0, initial, {}))
  {
    assert Texts([]) == {};
    RequestsAreRun(serve, cursors, 0, initial, []);
    rows := [];
    var after, seen, k: nat := initial, {}, 0;
    ghost var full := RowsOf(serve, 0, Requests(serve, cursors, 0, initial, {}));
    while true
      invariant full == rows + RowsOf(serve, k, Requests(serve, cursors, k, after, seen))
      decreases cursors - seen
    {
      var page := serve(k, after);
      RowsSplit(serve, cursors, k, after, seen);
      rows := rows + page.rows;
      var next := Following(page, after, seen);
      if next.None? { break; }
      seen := seen + {next.value};
      after, k := next, k + 1;
    }
  }

  lemma {:induction false} RowsSplit<R(!new)>(
      serve: Server<R>, cursors: set<string>, k: nat, after: Option<string>, seen: set<string>)
    requires Names(serve, cursors)
    ensures var next := Following(serve(k, after), after, seen);
      RowsOf(serve, k, Requests(serve, cursors, k, after, seen)) ==
        serve(k, after).rows
        + if next.None? then [] else RowsOf(serve, k + 1, Requests(serve, cursors, k + 1, next, seen + {next.value}))
  {
    var next := Following(serve(k, after), after, seen);
    var requests := Requests(serve, cursors, k, after, seen);
    assert requests[1..] == if next.None? then [] else Requests(serve, cursors, k + 1, next, seen + {next.value});
  }

  /** After the first request, every request carries the cursor its predecessor's page named, not requested before. */
  lemma {:induction false} LaterRequestsAreNew<R(!new)>(
      serve: Server<R>, cursors: set<string>, k: nat, after: Option<string>, seen: set<string>)
    requires Names(serve, cursors)
    ensures var requests := Requests(serve, cursors, k, after, seen);
      && Distinct(requests[1..])
      && forall i | 1 <= i < |requests| ::
           && requests[i].Some? && requests[i].value != "" && requests[i].value !in seen && requests[i].value in cursors
           && requests[i] == serve(k + i - 1, requests[i - 1]).next
    decreases cursors - seen
  {
    var next := Following(serve(k, after), after, seen);
    if next.Some? {
      LaterRequestsAreNew(serve, cursors, k + 1, next, seen + {next.value});
      RequestsPrepend(serve, cursors, k, after, next, seen,
                      Requests(serve, cursors, k + 1, next, seen + {next.value}));
    }
  }

  lemma {:induction false} RequestsPrepend<R(!new)>(
      serve: Server<R>, cursors: set<string>, k: nat, first: Option<string>, next: Option<string>, seen: set<string>,
      rest: seq<Option<string>>)
    requires next.Some? && next == serve(k, first).next && rest != [] && rest[0] == next
    requires next.value != "" && next.value !in seen && next.value in cursors && Distinct(rest[1..])
    requires forall i | 1 <= i < |rest| ::
      && rest[i].Some? && rest[i].value != "" && rest[i].value !in seen + {next.value} && rest[i].value in cursors
      && rest[i] == serve(k + 1 + i - 1, rest[i - 1]).next
    ensures var requests := [first] + rest;
      && Distinct(requests[1..])
      && forall i | 1 <= i < |requests| ::
           && requests[i].Some? && requests[i].value != "" && requests[i].value !in seen && requests[i].value in cursors
           && requests[i] == serve(k + i - 1, requests[i - 1]).next
  {
    var requests := [first] + rest;
    assert requests[1..] == rest == [next] + rest[1..];
    forall i | 2 <= i < |requests|
      ensures requests[i].Some? && requests[i].value != "" && requests[i].value !in seen && requests[i].value in cursors
      ensures requests[i] == serve(k + i - 1, requests[i - 1]).next
    {
      assert requests[i] == rest[i - 1] && requests[i - 1] == rest[i - 2];
      assert k + 1 + (i - 1) - 1 == k + i - 1;
    }
  }

  /** Started without a cursor, the loop ends and never sends the same request twice. */
  lemma {:induction false} NeverRepeats<R(!new)>(serve: Server<R>, cursors: set<string>)
    requires Names(serve, cursors)
    ensures Distinct(Requests(serve, cursors, 0, None, {}))
    ensures |Requests(serve, cursors, 0, None, {})| <= |cursors| + 1
  {
    var requests := Requests(serve, cursors, 0, None, {});
    LaterRequestsAreNew(serve, cursors, 0, None, {});
    assert requests[0] == None && requests == [None] + requests[1..];
    DistinctFits(requests[1..], set c | c in cursors :: Some(c));
    SomeKeepsSize(cursors);
  }

  lemma {:induction false} DistinctFits<T>(s: seq<T>, elements: set<T>)
    requires Distinct(s) && forall i | 0 <= i < |s| :: s[i] in elements
    ensures |s| <= |elements|
  {
    if s != [] {
      DistinctFits(s[1..], elements - {s[0]});
    }
  }

  lemma {:induction false} SomeKeepsSize(cursors: set<string>)
    ensures |set c | c in cursors :: Some(c)| == |cursors|
  {
    if cursors != {} {
      var c :| c in cursors;
      SomeKeepsSize(cursors - {c});
      assert (set d | d in cursors :: Some(d)) == (set d | d in cursors - {c} :: Some(d)) + {Some(c)};
    }
  }

  /** A cursor that a later page names has been requested, or was seen before. */
  lemma {:induction false} NamedIsRequested<R(!new)>(
      serve: Server<R>, cursors: set<string>, k: nat, after: Option<string>, seen: set<string>, i: nat, a: string)
    requires Names(serve, cursors) && a != "" && 1 <= i < |Requests(serve, cursors, k, after, seen)|
    requires serve(k + i, Requests(serve, cursors, k, after, seen)[i]).next == Some(a)
    ensures a in seen || Some(a) in Requests(serve, cursors, k, after, seen)[1..]
    decreases i
  {
    var next := Following(serve(k, after), after, seen);
    var seen' := seen + {next.value};
    var rest := Requests(serve, cursors, k + 1, next, seen');
    assert Requests(serve, cursors, k, after, seen)[1..] == rest;
    assert rest[0] == next;
    if i > 1 {
      assert rest[i - 1] == Requests(serve, cursors, k, after, seen)[i];
      assert k + 1 + (i - 1) == k + i;
      NamedIsRequested(serve, cursors, k + 1, next, seen', i - 1, a);
      assert Some(a) in rest[1..] ==> Some(a) in rest;
    } else {
      var second := Following(serve(k + 1, next), next, seen');
      if second.Some? {
        assert rest == [next] + Requests(serve, cursors, k + 2, second, seen' + {second.value});
        assert rest[1] == Some(a);
      }
    }
  }

  /**
   Started at a cursor, no request is made twice if and only if no page after the first names that
   cursor again: it is not among those the loop has seen.
   */
  lemma {:induction false} StartedAtCursor<R(!new)>(serve: Server<R>, cursors: set<string>, a: string)
    requires Names(serve, cursors)
    ensures var requests := Requests(serve, cursors, 0, Some(a), {});
      Distinct(requests) <==>
        a == "" || forall i | 1 <= i < |requests| :: serve(i, requests[i]).next != Some(a)
  {
    var requests := Requests(serve, cursors, 0, Some(a), {});
    LaterRequestsAreNew(serve, cursors, 0, Some(a), {});
    assert requests == [requests[0]] + requests[1..];
    assert |requests| > 1 ==> requests[1] != Some(a);
    if i :| 1 <= i < |requests| && serve(i, requests[i]).next == Some(a) && a != "" {
      NamedIsRequested(serve, cursors, 0, Some(a), {}, i, a);
      var j :| 0 <= j < |requests[1..]| && requests[1..][j] == Some(a);
      assert requests[0] == requests[j + 1];
    } else {
      forall j | 1 <= j < |requests| ensures requests[j] != Some(a) {
        assert requests[j] == serve(j - 1, requests[j - 1]).next;
      }
    }
  }

  /** The pages from a request on form a chain of distinct non-empty cursors that ends. */
  ghost predicate Chain<R(!new)>(page: Option<string> -> Page<R>, request: Option<string>, chain: seq<string>)
    decreases |chain|
  {
    if chain == [] then page(request).next == None
    else chain[0] != "" && page(request).next == Some(chain[0]) && Chain(page, Some(chain[0]), chain[1..])
  }

  ghost function ChainRequests(request: Option<string>, chain: seq<string>): seq<Option<string>>
    decreases |chain|
  {
    [request] + if chain == [] then [] else ChainRequests(Some(chain[0]), chain[1..])
  }

  /** A server that answers a request the same way each time. */
  ghost function Fixed<R>(page: Option<string> -> Page<R>): Server<R> {
    (k, request) => page(request)
  }

  lemma {:induction false} ChainIsFollowed<R(!new)>(
      page: Option<string> -> Page<R>, cursors: set<string>, k: nat, after: Option<string>, seen: set<string>,
      chain: seq<string>)
    requires Names(Fixed(page), cursors) && Chain(page, after, chain) && Distinct(chain)
    requires forall c | c in chain :: c !in seen && c != CursorText(after)
    ensures Requests(Fixed(page), cursors, k, after, seen) == ChainRequests(after, chain)
    decreases |chain|
  {
    if chain != [] {
      assert chain[0] in chain;
      assert page(after).next == Some(chain[0]);
      assert Following(page(after), after, seen) == Some(chain[0]);
      ChainIsFollowed(page, cursors, k + 1, Some(chain[0]), seen + {chain[0]}, chain[1..]);
    }
  }

  /**
   On an acyclic chain every page is fetched and their rows concatenated, except that a first cursor
   spelled "null" is taken for the absent one and ends the loop after the first page.
   */
  lemma {:induction false} ChainIsFetched<R(!new)>(
      page: Option<string> -> Page<R>, cursors: set<string>, chain: seq<string>)
    requires Names(Fixed(page), cursors) && Chain(page, None, chain) && Distinct(chain)
    ensures Requests(Fixed(page), cursors, 0, None, {}) == ChainRequests(None, chain)
            <==> chain == [] || chain[0] != "null"
    ensures chain != [] && chain[0] == "null" ==> Requests(Fixed(page), cursors, 0, None, {}) == [None]
  {
    var serve := Fixed(page);
    if chain == [] {
      ChainIsFollowed(page, cursors, 0, None, {}, chain);
    } else if chain[0] == "null" {
      assert Requests(serve, cursors, 0, None, {}) == [None];
      assert |ChainRequests(None, chain)| >= 2;
    } else {
      assert page(None).next == Some(chain[0]);
      assert Requests(serve, cursors, 0, None, {})
          == [None] + Requests(serve, cursors, 1, Some(chain[0]), {} + {chain[0]});
      ChainIsFollowed(page, cursors, 1, Some(chain[0]), {} + {chain[0]}, chain[1..]);
    }
  }

  // ---------------------------------------------------------------- two servers

  /** "a" and "b" name each other: started at "a", the loop asks for it twice. */
  ghost function Circle(request: Option<string>): Page<int> {
    if request == Some("a") then Page([1], Some("b")) else Page([2], Some("a"))
  }

  lemma {:induction false} FixedAnswers<R>(page: Option<string> -> Page<R>)
    ensures forall k: nat, request: Option<string> :: Fixed(page)(k, request) == page(request)
  {}

  lemma {:induction false} StartedAtCursorRepeats()
    ensures Names(Fixed(Circle), {"a", "b"})
    ensures Requests(Fixed(Circle), {"a", "b"}, 0, Some("a"), {}) == [Some("a"), Some("b"), Some("a")]
    ensures !Distinct(Requests(Fixed(Circle), {"a", "b"}, 0, Some("a"), {}))
  {
    var serve, all := Fixed(Circle), {"a", "b"};
    FixedAnswers(Circle);
    assert Circle(Some("a")).next == Some("b") && Circle(Some("b")).next == Some("a");
    assert Following(serve(0, Some("a")), Some("a"), {}) == Some("b");
    assert Following(serve(1, Some("b")), Some("b"), {} + {"b"}) == Some("a");
    assert Following(serve(2, Some("a")), Some("a"), {} + {"b"} + {"a"}) == None;
    var third := Requests(serve, all, 2, Some("a"), {} + {"b"} + {"a"});
    var second := Requests(serve, all, 1, Some("b"), {} + {"b"});
    assert third == [Some("a")] && second == [Some("b")] + third;
    var requests := Requests(serve, all, 0, Some("a"), {});
    assert requests == [Some("a")] + second && requests[0] == requests[2];
  }

  /** A second page behind the cursor "null". */
  ghost function Behind(request: Option<string>): Page<int> {
    if request == None then Page([1], Some("null")) else Page([2], None)
  }

  lemma {:induction false} NullCursorStops()
    ensures Names(Fixed(Behind), {"null"}) && Chain(Behind, None, ["null"])
    ensures RowsOf(Fixed(Behind), 0, Requests(Fixed(Behind), {"null"}, 0, None, {})) == [1]
    ensures RowsOf(Fixed(Behind), 0, ChainRequests(None, ["null"])) == [1, 2]
  {
    FixedAnswers(Behind);
    assert ["null"][1..] == [];
    assert Chain(Behind, Some("null"), []);
    ChainIsFetched(Behind, {"null"}, ["null"]);
    var first: seq<Option<string>> := [None];
    assert first[1..] == [];
    var both := ChainRequests(None, ["null"]);
    assert both == [None, Some("null")] && both[1..] == [Some("null")] && both[1..][1..] == [];
    assert RowsOf(Fixed(Behind), 1, both[1..]) == [2];
  }
}
