/** The cursor pagination shared by the three repository-search scripts:
    `get_repos_after` (data_utils/repos.py, collect_data/repos.py) and
    `get_intern_repos_after` (collect_data.py) turn one search page into rows
    and the next cursor, and a driver loop re-requests with each cursor until
    it gets the empty string back. */
module Pagination {
  import opened Common

  /** One search edge: its pagination cursor and the repository node's owner
      login, name, creation time and pull-request total count. */
  datatype Edge = Edge(cursor: string, owner: string, name: string, createdAt: string, prCount: int)

  /** What `run_query` returned for one page request. */
  type Page = QueryResult<seq<Edge>>

  const Header: Row := [Str("owner"), Str("name"), Str("created"), Str("pr_count")]

  const AfterPrefix := "after: \""
  const AfterSuffix := "\","

  /** The `after` argument spliced into the search query: nothing for the
      first page, otherwise the cursor quoted and followed by a comma. */
  function AfterClause(cursor: string): (clause: string)
    ensures clause == "" <==> cursor == ""
    ensures cursor != "" ==> |clause| == |cursor| + 10
  {
    if cursor == "" then "" else AfterPrefix + cursor + AfterSuffix
  }

  /** The cursor an after clause carries. */
  function ClauseCursor(clause: string): string
  {
    if |clause| < |AfterPrefix| + |AfterSuffix| then ""
    else clause[|AfterPrefix|..|clause| - |AfterSuffix|]
  }

  /** The after clause determines the cursor it was built from. */
  lemma AfterClauseRoundTrip(cursor: string)
    ensures ClauseCursor(AfterClause(cursor)) == cursor
  {
    if cursor != "" {
      var clause := AfterClause(cursor);
      assert clause[|AfterPrefix|..|clause| - |AfterSuffix|] == cursor;
    }
  }

  /** So distinct cursors are sent as distinct queries. */
  lemma AfterClauseInjective(c1: string, c2: string)
    requires AfterClause(c1) == AfterClause(c2)
    ensures c1 == c2
  {
    AfterClauseRoundTrip(c1);
    AfterClauseRoundTrip(c2);
  }

  /** The row written (or appended) for one edge. */
  function EdgeRow(e: Edge): Row
  {
    [Str(e.owner), Str(e.name), Str(e.createdAt), Int(e.prCount)]
  }

  /** The rows of one page, one per edge in edge order. */
  function EdgeRows(edges: seq<Edge>): seq<Row>
  {
    MapRows(edges, EdgeRow)
  }

  /** `results[-1]['cursor']`, or "" when the page has no edges. */
  function NextCursor(edges: seq<Edge>): string
  {
    if edges == [] then "" else edges[|edges| - 1].cursor
  }

  /** One page step. The after clause is built from `cursor` and spliced
      into the search query; `page` is what that query returned. Unless the
      query failed (the script then raises on `result['data']`), it returns
      the next cursor: an empty page writes nothing and returns ""; any other
      page writes one row per edge and returns the last edge's cursor. */
  method GetReposAfter(sink: RowSink, cursor: string, page: Page, failure: Error)
    returns (after: string, next: Result<string>)
    modifies sink
    ensures after == AfterClause(cursor)
    ensures next == if page.Failed? then Err(failure) else Ok(NextCursor(page.data))
    ensures sink.rows == old(sink.rows) + PageRows(page)
  {
    after := "";
    if cursor != "" {
      after := AfterPrefix + cursor + AfterSuffix;
    }
    if page.Failed? {
      return after, Err(failure);
    }
    var results := page.data;
    if results == [] {
      return after, Ok("");
    }
    ghost var head := sink.rows;
    for i := 0 to |results|
      invariant sink.rows == head + MapRows(results[..i], EdgeRow)
    {
      ghost var before := sink.rows;
      sink.Append([Str(results[i].owner), Str(results[i].name),
                   Str(results[i].createdAt), Int(results[i].prCount)]);
      MapRowsStep(head, before, sink.rows, results, EdgeRow, i);
    }
    assert results[..|results|] == results;
    next := Ok(results[|results| - 1].cursor);
  }

  /** A page ends the driver loop: the query failed (and the script raised) or
      the page handed back the empty cursor. */
  predicate Stops(p: Page)
  {
    p.Failed? || NextCursor(p.data) == ""
  }

  /** The index of the page at which the loop stops, or |pages| if none does. */
  function FirstStop(pages: seq<Page>): (k: nat)
    ensures k <= |pages|
    ensures k < |pages| ==> Stops(pages[k])
  {
    if pages == [] then 0
    else if Stops(pages[0]) then 0
    else 1 + FirstStop(pages[1..])
  }

  /** Every page before the stopping one was answered with a non-empty last
      cursor. */
  lemma {:induction false} NoStopBefore(pages: seq<Page>, j: nat)
    requires j < FirstStop(pages)
    ensures pages[j].Answered? && NextCursor(pages[j].data) != ""
  {
    if j > 0 {
      NoStopBefore(pages[1..], j - 1);
    }
  }

  lemma {:induction false} FirstStopBound(pages: seq<Page>, i: nat)
    requires i < |pages| && Stops(pages[i])
    ensures FirstStop(pages) <= i
  {
    if i > 0 && !Stops(pages[0]) {
      FirstStopBound(pages[1..], i - 1);
    }
  }

  /** The search runs out: some page in the sequence answered ends the loop. */
  predicate Terminates(pages: seq<Page>)
  {
    exists i :: 0 <= i < |pages| && Stops(pages[i])
  }

  lemma TerminatesStop(pages: seq<Page>)
    requires Terminates(pages)
    ensures FirstStop(pages) < |pages|
  {
    var i :| 0 <= i < |pages| && Stops(pages[i]);
    FirstStopBound(pages, i);
  }

  /** The cursor held when page k is requested: "" for the first page, then
      whatever the page before returned. */
  function CursorBefore(pages: seq<Page>, k: nat): string
    requires k <= |pages|
  {
    if k == 0 || pages[k - 1].Failed? then "" else NextCursor(pages[k - 1].data)
  }

  /** The cursors the first n page requests are made with. */
  function Cursors(pages: seq<Page>, n: nat): seq<string>
    requires n <= |pages|
  {
    if n == 0 then [] else Cursors(pages, n - 1) + [CursorBefore(pages, n - 1)]
  }

  /** The rows one page request writes: none when the query failed. */
  function PageRows(page: Page): seq<Row>
  {
    match page
    case Answered(edges) => EdgeRows(edges)
    case Failed => []
  }

  /** The rows of the first n pages, in page order. */
  function PagesRows(pages: seq<Page>, n: nat): seq<Row>
    requires n <= |pages|
  {
    if n == 0 then [] else PagesRows(pages, n - 1) + PageRows(pages[n - 1])
  }

  /** The `while True` loop of main: start from the empty cursor, request,
      and carry on with the returned cursor until it is "" or a query fails.
      `pages[k]` is the answer to the k-th request, which is sent with the
      after clause of `cursors[k]`. The rows are those of every page up to the
      stopping one; a failed page raises `failure`. */
  method Paginate(sink: RowSink, pages: seq<Page>, failure: Error)
    returns (last: nat, cursors: seq<string>, raised: Option<Error>)
    requires Terminates(pages)
    modifies sink
    ensures last == FirstStop(pages) < |pages|
    ensures cursors == Cursors(pages, last + 1)
    ensures sink.rows == old(sink.rows) + PagesRows(pages, last + 1)
    ensures raised == if pages[last].Failed? then Some(failure) else None
  {
    TerminatesStop(pages);
    ghost var stop := FirstStop(pages);
    ghost var head := sink.rows;
    var cursor := "";
    var k := 0;
    cursors := [];
    while true
      invariant k <= stop
      invariant cursor == CursorBefore(pages, k)
      invariant cursors == Cursors(pages, k)
      invariant sink.rows == head + PagesRows(pages, k)
      decreases stop - k
    {
      ghost var before := sink.rows;
      var after, next := GetReposAfter(sink, cursor, pages[k], failure);
      RowsStep(head, before, sink.rows, pages, k);
      Advance(pages, k);
      cursors := cursors + [cursor];
      if next.Err? || next.value == "" {
        return k, cursors, if next.Err? then Some(next.error) else None;
      }
      cursor := next.value;
      k := k + 1;
    }
  }

  /** What the loop learns from page k: whether the loop stops there and,
      if not, the cursor the next request is made with. */
  lemma Advance(pages: seq<Page>, k: nat)
    requires k <= FirstStop(pages) < |pages|
    ensures Cursors(pages, k + 1) == Cursors(pages, k) + [CursorBefore(pages, k)]
    ensures Stops(pages[k]) ==> FirstStop(pages) == k
    ensures !Stops(pages[k]) ==>
      && k < FirstStop(pages)
      && pages[k].Answered?
      && CursorBefore(pages, k + 1) == NextCursor(pages[k].data)
  {
    if Stops(pages[k]) {
      FirstStopBound(pages, k);
    }
  }

  /** The rows after one more page are the earlier rows followed by that
      page's rows. */
  lemma RowsStep(head: seq<Row>, before: seq<Row>, after: seq<Row>, pages: seq<Page>, k: nat)
    requires k < |pages|
    requires before == head + PagesRows(pages, k)
    requires after == before + PageRows(pages[k])
    ensures after == head + PagesRows(pages, k + 1)
  {
    AppendAssoc(head, PagesRows(pages, k), PageRows(pages[k]));
  }

  /** Rows are only ever appended: the rows of the first m pages are a prefix
      of the rows of the first n pages, so a run that raises part-way leaves
      a prefix of what a complete run writes. */
  lemma {:induction false} PagesRowsPrefix(pages: seq<Page>, m: nat, n: nat)
    requires m <= n <= |pages|
    ensures |PagesRows(pages, m)| <= |PagesRows(pages, n)|
    ensures PagesRows(pages, n)[..|PagesRows(pages, m)|] == PagesRows(pages, m)
  {
    if m < n {
      PagesRowsPrefix(pages, m, n - 1);
      var p := PagesRows(pages, m);
      var r := PagesRows(pages, n - 1);
      var t := PageRows(pages[n - 1]);
      assert PagesRows(pages, n) == r + t;
      PrefixExtends(p, r, t);
    }
  }

  /** The page that ends the loop normally has no edges in the common case;
      it then adds nothing, and the rows are those of the earlier pages. */
  lemma LastPageEmpty(pages: seq<Page>)
    requires FirstStop(pages) < |pages|
    requires pages[FirstStop(pages)] == Answered([])
    ensures PagesRows(pages, FirstStop(pages) + 1) == PagesRows(pages, FirstStop(pages))
  {
    assert EdgeRows([]) == [];
  }

  /** A page has exactly one row per edge, and row i holds edge i's owner,
      name, creation time and pull-request count. */
  lemma EdgeRowsShape(edges: seq<Edge>)
    ensures |EdgeRows(edges)| == |edges|
    ensures forall i :: 0 <= i < |edges| ==>
      EdgeRows(edges)[i] == [Str(edges[i].owner), Str(edges[i].name),
                             Str(edges[i].createdAt), Int(edges[i].prCount)]
  {
    MapRowsAt(edges, EdgeRow);
  }

  /** There is one request per page, and request k is made with the cursor
      returned by page k - 1 (the empty cursor for the first). */
  lemma {:induction false} CursorsAt(pages: seq<Page>, n: nat)
    requires n <= |pages|
    ensures |Cursors(pages, n)| == n
    ensures forall k :: 0 <= k < n ==> Cursors(pages, n)[k] == CursorBefore(pages, k)
  {
    if n > 0 {
      CursorsAt(pages, n - 1);
    }
  }

  /** Only the first request goes without an after clause: every later
      request, up to the stopping page, carries the non-empty cursor the
      previous page returned. */
  lemma LaterRequestsCarryCursor(pages: seq<Page>, k: nat)
    requires FirstStop(pages) < |pages|
    requires 0 < k <= FirstStop(pages)
    ensures |Cursors(pages, FirstStop(pages) + 1)| == FirstStop(pages) + 1
    ensures AfterClause(Cursors(pages, FirstStop(pages) + 1)[0]) == ""
    ensures pages[k - 1].Answered?
    ensures Cursors(pages, FirstStop(pages) + 1)[k] == NextCursor(pages[k - 1].data) != ""
  {
    var n := FirstStop(pages) + 1;
    CursorsAt(pages, n);
    NoStopBefore(pages, k - 1);
  }

  /** A first page with one repository edge (cursor "Y3Vyc29yOjE=") and a
      second page with no edges: the second request is sent after that
      cursor, and there is exactly one row. */
  lemma TwoPageExample(e: Edge)
    requires e.cursor == "Y3Vyc29yOjE="
    ensures var pages := [Answered([e]), Answered([])];
      && FirstStop(pages) == 1
      && Cursors(pages, 2) == ["", "Y3Vyc29yOjE="]
      && AfterClause(Cursors(pages, 2)[1]) == "after: \"Y3Vyc29yOjE=\","
      && PagesRows(pages, 2) == [EdgeRow(e)]
  {
    var pages: seq<Page> := [Answered([e]), Answered([])];
    assert !Stops(pages[0]);
    assert pages[1..] == [Answered([])];
    EdgeRowsShape([e]);
    assert EdgeRows([e]) == [EdgeRow(e)];
    assert Cursors(pages, 1) == [""];
    assert CursorBefore(pages, 1) == e.cursor;
    assert PagesRows(pages, 1) == [EdgeRow(e)];
  }

}
