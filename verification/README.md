# risr data collection, modelled in Dafny

This project models the Python scripts that collect data about STEP intern
repositories from GitHub's GraphQL API and flatten it into CSV files:

- `pr_stats.py`, in both its `data_utils` and its `collect_data` versions: one
  row per pull request. The row includes `total_comments`, which is the direct
  comments, plus one for each review with a body, plus every review's nested
  comments.
- `data_utils/pr_comments.py`: one row per comment or review with a non-empty
  body. The nodes are visited in a fixed order, and a deleted author is written
  as `deleted-user`.
- `data_utils/repos.py`, `collect_data/repos.py` and `collect_data.py`: cursor
  pagination over the repository search, one row per search edge.
  `data_utils/repos.py` first selects the search from the repository type.
- `data_utils/host.py`: the STEP teams CSV becomes one row per host username.

What `run_query` returns is an input to the model: `Answered(data)`, or
`Failed` for the empty list the client returns after an API error or a failed
request. A CSV writer, or a list that rows are appended to, is a `RowSink`
object whose `rows` the methods extend. What a script leaves behind is a
`Run`: the output file it opened (its path and every row in it), and the
exception it ended with, if any.

Modules:

- `Common` (common.dfy): rows, errors, `QueryResult`, `RowSink`,
  `FirstFailed`, and the row lists shared by the scripts: `MapRows` (one row
  per node or edge) and `RepoRows` (the rows of each roster answer in turn).
- `PrStats` (pr_stats.dfy): the pull-request node and the comment count.
- `DataUtilsPrStats` and `CollectDataPrStats` (pr_stats.dfy): the two scripts.
- `PrComments` (pr_comments.dfy).
- `Pagination` (pagination.dfy): the page step and the cursor loop shared by
  the three repository scripts.
- `DataUtilsRepos`, `CollectDataRepos` and `CollectData` (repos.dfy): their
  `main` functions.
- `Host` (host.dfy).

Points where the model follows the code's actual behaviour rather than the
scripts' documented intent:

- A failed query is not an empty page. The client returns `[]`, and the
  script then raises on `result['data']`. There is no dedicated "unsupported
  response shape" error; the model calls this `MalformedResponse`. In
  `collect_data.py`, `run_query` itself raises only on a non-OK HTTP status
  (`RequestFailed`). A response with status OK that carries API errors is
  returned unchanged, and the raise comes later, at `result['data']`
  (`MalformedResponse`); `CollectData.Response` keeps the two apart.
- The pagination loop stops when a page returns the empty cursor. That
  happens when the page has no edges, and also when its last edge's cursor is
  empty.
- `process_comment` returns `None` and writes its row through `main.writer`.
- The output rows carry only the columns the code writes. There are no week,
  start-date or host columns.

## Model

| member | source | states |
|---|---|---|
| Common.FirstFailed | data_utils/query.py:52-68 | the first answer that is the `[]` error sentinel, where a script doing `result['data']` raises; it is at most the number of answers, and when it is inside the sequence that answer failed |
| Common.AnsweredBeforeFirstFailed | data_utils/pr_stats.py:97-98 | every repository handled before the raise was answered |
| PrStats.CountComments | data_utils/pr_stats.py:61-65 | the accumulator loop ends with the direct comment count, plus one per review with a non-empty body, plus every review's nested comment count |
| PrStats.AddReview | data_utils/pr_stats.py:62-65 | one more review adds its nested count, plus one only when its body is not empty; an empty-bodied review never adds the one |
| PrStats.NoReviews | data_utils/pr_stats.py:61-62 | a pull request without reviews counts only its direct comments |
| PrStats.BodiedReviewsBound | data_utils/pr_stats.py:63-64 | at most one extra count per review, and exactly one per review iff every review has a body |
| PrStats.TotalsSplit | data_utils/pr_stats.py:62-65 | both review counts are additive over any split of the review list |
| PrStats.TotalCommentsBounds | data_utils/pr_stats.py:61-65 | the total is at least the direct count, at least the nested review comments, and at most their sum plus the number of reviews |
| PrStats.ElevenComments | data_utils/pr_stats_test.py:106-131 | reviews ("text1", 3), ("", 1), ("text2", 2), ("text3", 2) and no direct comments give 11 |
| DataUtilsPrStats.StatsRowsShape | data_utils/pr_stats.py:60-71 | one row per pull-request node, in node order: path, number, created, closed (null passed through as an empty cell), total_comments, deletions + additions |
| Common.MapRowsAt | data_utils/pr_stats.py:66-71 | a loop that writes a row for every node writes exactly as many rows as nodes, and row i is the row built from node i |
| DataUtilsPrStats.GetPrStats | data_utils/pr_stats.py:56-71 | a failed query raises and writes nothing; otherwise the node rows are written after whatever the writer already holds |
| DataUtilsPrStats.StreamRoster | data_utils/pr_stats.py:97-98 | the roster is processed in order up to the first failed query; the rows of every earlier repository are in the writer, in roster order |
| DataUtilsPrStats.RunScript | data_utils/pr_stats.py:89-98 | a missing roster raises before any output; otherwise the file is the six-column header followed by the rows of the repositories before the first failure, which raises |
| CollectDataPrStats.StatsRowsShape | collect_data/pr_stats.py:68-72 | one five-field row per pull request, in node order, matching the five-column header; there is no closed column |
| Common.RepoRowsSplit | collect_data/pr_stats.py:95-96 | the accumulated list is the concatenation of each repository's rows in roster order |
| CollectDataPrStats.GetPrStats | collect_data/pr_stats.py:58-72 | appends exactly the node rows to the list and leaves the earlier entries unchanged; a failed query raises and appends nothing |
| CollectDataPrStats.RunScript | collect_data/pr_stats.py:91-104 | starting from an empty list, a failed query raises with no file written; otherwise the file is the header followed by every repository's rows |
| PrComments.NonEmpty | data_utils/pr_comments.py:100 | keeps exactly the nodes with a non-empty body and is never longer than its input |
| PrComments.ProcessComment | data_utils/pr_comments.py:87-108 | an empty body writes nothing and leaves the node; otherwise a null author is replaced in the node by `deleted-user`, a present login is kept, and one row (path, created, login, body verbatim) is written |
| PrComments.ProcessComments | data_utils/pr_comments.py:79-80 | a comment list writes the rows of its non-empty comments, in order |
| PrComments.ProcessReview | data_utils/pr_comments.py:81-84 | a review writes its own row before its comments' rows |
| PrComments.ProcessPullRequest | data_utils/pr_comments.py:78-84 | a pull request writes the rows of its traversal: direct comments, then each review followed by its comments |
| PrComments.GetPrComments | data_utils/pr_comments.py:74-84 | a failed query raises and writes nothing; otherwise the pull requests' rows are written in node order |
| PrComments.PrRowsFilterTraversal | data_utils/pr_comments.py:78-84 | the rows for a page of pull requests are the whole traversal filtered to non-empty bodies |
| PrComments.StreamRoster | data_utils/pr_comments.py:131-132 | repositories are processed in roster order up to the first failed query, with the earlier rows written |
| PrComments.RunScript | data_utils/pr_comments.py:126-132 | a missing roster raises before any output; otherwise the header comes first, then the streamed rows, and the first failed query raises |
| PrComments.EmittedRowsSplit | data_utils/pr_comments.py:78-84 | filtering preserves order: the rows of a concatenation are the rows of each part in turn |
| PrComments.EmittedRowsAreFiltered | data_utils/pr_comments.py:100-108 | row i is the row of the i-th non-empty node, so there are never more rows than visited nodes |
| PrComments.EmittedRowMembership | data_utils/pr_comments.py:100-108 | a row is written iff some visited node with a non-empty body produces it |
| PrComments.OneRowPerComment | data_utils/pr_comments.py:100-108 | one more node adds no row when its body is empty and exactly its own row otherwise |
| PrComments.ReviewsTraversalSplit | data_utils/pr_comments.py:81-84 | reviews are visited in node order |
| PrComments.PrTraversalOrder | data_utils/pr_comments.py:79-84 | the direct comments come first, and review k is visited after every earlier review and its comments and right before its own comments |
| PrComments.TraversalSplit | data_utils/pr_comments.py:78-84 | pull requests are visited in node order |
| Pagination.AfterClause | data_utils/repos.py:63-66 | the after clause is empty iff the cursor is empty; otherwise it is the quoted cursor and a comma |
| Pagination.AfterClauseRoundTrip | data_utils/repos.py:64-66 | the after clause gives back the cursor it was built from |
| Pagination.AfterClauseInjective | data_utils/repos.py:64-66 | distinct cursors give distinct after clauses |
| Pagination.GetReposAfter | data_utils/repos.py:63-80 | the query is sent with the after clause of the given cursor; a failed query raises; an empty page writes nothing and returns ""; otherwise one row per edge is written in order and the last edge's cursor is returned |
| Pagination.FirstStop | data_utils/repos.py:133-138 | the loop stops at the first page that failed or returned the empty cursor |
| Pagination.NoStopBefore | data_utils/repos.py:134-138 | every page before the stopping one was answered with a non-empty cursor |
| Pagination.FirstStopBound | data_utils/repos.py:134-138 | a page that stops the loop is at or after the stopping page |
| Pagination.TerminatesStop | data_utils/repos.py:133-138 | when some page stops the loop, the loop stops inside the page sequence |
| Pagination.Paginate | data_utils/repos.py:133-138 | from cursor "", each request carries the cursor returned by the previous page, and the loop ends at the first stopping page; the rows are those of every page up to it, in order, and a failed page raises |
| Pagination.PagesRowsPrefix | data_utils/repos.py:73-78 | rows are only appended: the rows of fewer pages are a prefix of the rows of more pages |
| Pagination.LastPageEmpty | data_utils/repos.py:69-71 | an empty stopping page adds no rows |
| Pagination.EdgeRowsShape | data_utils/repos.py:73-78 | a page writes one row per edge, and row i is edge i's owner, name, created and pr_count |
| Pagination.CursorsAt | data_utils/repos.py:133-138 | there is one request per page, and request k carries the cursor that page k - 1 returned ("" for the first) |
| Pagination.LaterRequestsCarryCursor | data_utils/repos.py:133-138 | only the first request has no after clause; every later one carries the previous page's non-empty cursor |
| Pagination.TwoPageExample | data_utils/repos.py:63-80 | one edge with cursor "Y3Vyc29yOjE=" and then an empty page: the second request is sent after that cursor, and there is exactly one row |
| DataUtilsRepos.SelectCategory | data_utils/repos.py:102-126 | "starter" and "capstone" are accepted, each as its own category; any other type raises with the type |
| DataUtilsRepos.CategoryRoundTrip | data_utils/repos.py:102-123 | each category is selected by its own name |
| DataUtilsRepos.RunScript | data_utils/repos.py:97-138 | a missing argument or an unsupported type raises before any request or file; otherwise `data/<type>_repos.csv` holds the header and then the paginated rows, and a failed page raises with the earlier rows kept |
| CollectDataRepos.RunScript | collect_data/repos.py:90-102 | the list starts empty and the pages are collected; the file is written only after the loop, as the header followed by the list, and a failed page raises with no file |
| CollectData.GetInternRepos | collect_data.py:82-110 | the same loop into the enclosing list; `intern_repos.csv` is the header followed by all rows; a failed request leaves no file and raises `RequestFailed` when the HTTP status was not OK, `MalformedResponse` when an error body was returned |
| Host.WriteHosts | data_utils/host.py:46-51 | a teams row writes username 1's row iff that cell is non-empty, then username 2's iff non-empty, each with that row's date and team |
| Host.RunScript | data_utils/host.py:32-51 | a missing argument raises; a path that is not a file raises before the output is opened; otherwise the output is the header followed by the host rows in input order |
| Host.HostRowsSplit | data_utils/host.py:45-51 | input order is preserved: consecutive teams rows give concatenated host rows |
| Host.HostRowsCount | data_utils/host.py:45-51 | there is exactly one row per non-empty username cell, with no de-duplication |
| Host.HostRowSource | data_utils/host.py:45-51 | every written row comes from some teams row |
| Host.HostRowWritten | data_utils/host.py:45-51 | every row a teams row yields is written |
| Host.HostRowMembership | data_utils/host.py:45-51 | a row is written iff some teams row yields it |
| Host.RowsOfShape | data_utils/host.py:47-51 | a teams row yields only rows naming one of its non-empty usernames with its own start date and team |
| Host.TeamsExample | data_utils/host_test.py:52-67 | the rows (host1, host2), (host3, ""), ("", host4) give four rows in order, each with its own team's date and team number |

## Left out

- The HTTP clients are not part of this model: `data_utils/query.py` and
  `run_query` in `collect_data.py`. This covers the request, the `GITHUB_PAT`
  environment variable, the retry and its sleep. Their result is an input: a
  `QueryResult`, and for `collect_data.py` a `CollectData.Response`, which
  also records whether the status check raised.
  `collect_data/query.py` is not part of this model; `collect_data/repos.py`
  and `collect_data/pr_stats.py` are taken to receive the same `[]` sentinel
  as `data_utils/query.py` returns.
- The GraphQL query text beyond the `after` clause is an opaque string, and so
  is each repository type's search text. So `Pagination.GetReposAfter`
  builds the after clause and is handed the page answered for it, rather
  than building the whole query.
- CSV and file mechanics are not modelled: `open`, `csv.DictReader` and
  `csv.writer` quoting, and `os.makedirs`. Among their consequences:
  - A roster file is present (`Some`) or missing (`None`).
  - For `host.py`, `files` maps each existing path to its rows.
  - A missing `data` directory, a `KeyError` on a missing column and a
    non-dict node are not modelled.
- `Pagination.Paginate`, `DataUtilsRepos.RunScript`, `CollectDataRepos.RunScript` and
  `CollectData.GetInternRepos` require that some page ends the loop (a failed
  query or an empty cursor). An API that never runs out of results makes the
  source loop forever, and that case is not modelled.
- `PrComments.ProcessComment` stands for the in-place update of the comment
  dict: it returns the updated node. Other references to that dict, which see
  the change, are not modelled.
- PrComments.ProcessComment: an author that is present but falsy (an empty
  dict) is treated like `null`, because the model has only a present login or
  no author.
- The null check `and comment` in `process_comment` comes after the body is
  read. Comment nodes here are values and are never null, so that case is not
  modelled.
- Dates and timestamps are opaque strings.
- `comment_classification.py` (random sampling), `comment_sentiment.py`
  (TextBlob, floating point), the dashboard view, the React front end and
  functions that exist only in the tests (`calculate_week`, `get_start_date`
  and the like) are not part of this model.
- The `main` of `collect_data.py` has only a commented-out call, so it is not
  modelled. Its body holds nothing but comments, so `collect_data.py` does not
  parse as written and none of its functions can run; `get_intern_repos` is
  modelled as it would behave once `main` has a body.
