/** The pull-request nodes both `pr_stats.py` scripts receive, and the
    derived comment count they compute for each of them. */
module PrStats {
  import opened Common

  /** A review node: its body and its `comments.totalCount`. */
  datatype Review = Review(body: string, commentCount: nat)

  /** A pull-request node. `closedAt` is `null` for an open pull request;
      `collect_data/pr_stats.py` does not ask for it and never reads it. */
  datatype PullRequest = PullRequest(
    resourcePath: string,
    number: int,
    createdAt: string,
    closedAt: Option<string>,
    deletions: nat,
    additions: nat,
    commentCount: nat,
    reviews: seq<Review>)

  /** The number of reviews whose body is not empty. */
  function BodiedReviews(reviews: seq<Review>): nat
  {
    if reviews == [] then 0
    else BodiedReviews(reviews[..|reviews| - 1])
         + (if reviews[|reviews| - 1].body != "" then 1 else 0)
  }

  /** The sum of every review's nested comment count. */
  function NestedComments(reviews: seq<Review>): nat
  {
    if reviews == [] then 0
    else NestedComments(reviews[..|reviews| - 1]) + reviews[|reviews| - 1].commentCount
  }

  /** The closed form of `total_comments`: direct comments, plus one per review
      with a body, plus all comments nested under the reviews. */
  function TotalComments(pr: PullRequest): nat
  {
    pr.commentCount + BodiedReviews(pr.reviews) + NestedComments(pr.reviews)
  }

  /** The accumulator loop over the reviews of one pull request. */
  method CountComments(pr: PullRequest) returns (total: nat)
    ensures total == TotalComments(pr)
  {
    total := pr.commentCount;
    for i := 0 to |pr.reviews|
      invariant total == pr.commentCount + BodiedReviews(pr.reviews[..i])
                         + NestedComments(pr.reviews[..i])
    {
      assert pr.reviews[..i + 1][..i] == pr.reviews[..i];
      var review := pr.reviews[i];
      if review.body != "" {
        total := total + 1;
      }
      total := total + review.commentCount;
    }
    assert pr.reviews[..|pr.reviews|] == pr.reviews;
  }

  /** Adding one review adds its nested count, plus one only when its body is
      not empty: a review with an empty body never contributes the extra one. */
  lemma AddReview(pr: PullRequest, review: Review)
    ensures TotalComments(pr.(reviews := pr.reviews + [review]))
            == TotalComments(pr) + review.commentCount + (if review.body != "" then 1 else 0)
  {
    assert (pr.reviews + [review])[..|pr.reviews|] == pr.reviews;
  }

  /** A pull request without reviews counts only its direct comments. */
  lemma NoReviews(pr: PullRequest)
    requires pr.reviews == []
    ensures TotalComments(pr) == pr.commentCount
  {
  }

  /** At most one extra comment per review. */
  lemma {:induction false} BodiedReviewsBound(reviews: seq<Review>)
    ensures BodiedReviews(reviews) <= |reviews|
    ensures BodiedReviews(reviews) == |reviews| <==> forall i :: 0 <= i < |reviews| ==> reviews[i].body != ""
  {
    if reviews != [] {
      var init := reviews[..|reviews| - 1];
      BodiedReviewsBound(init);
      assert forall i :: 0 <= i < |init| ==> init[i] == reviews[i];
    }
  }

  /** The count is additive over a split of the review list, so it does not
      depend on how the reviews are grouped. */
  lemma {:induction false} TotalsSplit(a: seq<Review>, b: seq<Review>)
    ensures BodiedReviews(a + b) == BodiedReviews(a) + BodiedReviews(b)
    ensures NestedComments(a + b) == NestedComments(a) + NestedComments(b)
  {
    if b != [] {
      var b' := b[..|b| - 1];
      TotalsSplit(a, b');
      assert (a + b)[..|a + b| - 1] == a + b';
    } else {
      assert a + b == a;
    }
  }

  /** `total_comments` is at least the direct count and at least the sum of the
      nested review comment counts, and at most their sum plus one per review. */
  lemma TotalCommentsBounds(pr: PullRequest)
    ensures TotalComments(pr) >= pr.commentCount
    ensures TotalComments(pr) >= NestedComments(pr.reviews)
    ensures TotalComments(pr) <= pr.commentCount + |pr.reviews| + NestedComments(pr.reviews)
  {
    BodiedReviewsBound(pr.reviews);
  }

  /** The worked example: no direct comments and the reviews
      ("text1", 3), ("", 1), ("text2", 2), ("text3", 2) give 3 + 8 = 11. */
  lemma ElevenComments()
    ensures TotalComments(PullRequest("/o/r/pull/1", 1, "t", None, 0, 0, 0,
              [Review("text1", 3), Review("", 1), Review("text2", 2), Review("text3", 2)])) == 11
  {
    var r1, r2, r3, r4 := Review("text1", 3), Review("", 1), Review("text2", 2), Review("text3", 2);
    var rs := [r1, r2, r3, r4];
    assert [r1][..0] == [];
    assert BodiedReviews([r1]) == 1 && NestedComments([r1]) == 3;
    assert [r1, r2][..1] == [r1];
    assert BodiedReviews([r1, r2]) == 1 && NestedComments([r1, r2]) == 4;
    assert [r1, r2, r3][..2] == [r1, r2];
    assert BodiedReviews([r1, r2, r3]) == 2 && NestedComments([r1, r2, r3]) == 6;
    assert rs[..3] == [r1, r2, r3];
  }
}

/** data_utils/pr_stats.py: six-column rows streamed into the writer. */
module DataUtilsPrStats {
  import opened Common
  import opened PrStats

  const Header: Row := [Str("pr_path"), Str("pr_number"), Str("created"), Str("closed"),
                        Str("total_comments"), Str("pr_lines_changed")]
  const InputPath := "data/intern_repos.csv"
  const OutputPath := "data/pr_stats.csv"

  function ClosedCell(closedAt: Option<string>): Cell
  {
    if closedAt.Some? then Str(closedAt.value) else Null
  }

  function StatsRow(pr: PullRequest): Row
  {
    [Str(pr.resourcePath), Int(pr.number), Str(pr.createdAt), ClosedCell(pr.closedAt),
     Int(TotalComments(pr)), Int(pr.deletions + pr.additions)]
  }

  /** The rows written for the pull requests of one repository, in node order. */
  function StatsRows(prs: seq<PullRequest>): seq<Row>
  {
    MapRows(prs, StatsRow)
  }

  /** One row per pull request, in node order, with the columns
      path, number, created, closed (passed through, null included),
      total_comments and deletions + additions. */
  lemma {:induction false} StatsRowsShape(prs: seq<PullRequest>)
    ensures |StatsRows(prs)| == |prs|
    ensures forall i :: 0 <= i < |prs| ==>
      var row := StatsRows(prs)[i];
      && |row| == 6
      && row[0] == Str(prs[i].resourcePath)
      && row[1] == Int(prs[i].number)
      && row[2] == Str(prs[i].createdAt)
      && (row[3] == Null <==> prs[i].closedAt.None?)
      && (prs[i].closedAt.Some? ==> row[3] == Str(prs[i].closedAt.value))
      && row[4] == Int(TotalComments(prs[i]))
      && row[5] == Int(prs[i].deletions + prs[i].additions)
  {
    MapRowsAt(prs, StatsRow);
  }

  /** get_pr_stats: one row per pull-request node, written after whatever the
      writer already holds; a failed query raises before anything is written. */
  method GetPrStats(writer: RowSink, answer: QueryResult<seq<PullRequest>>) returns (outcome: Outcome)
    modifies writer
    ensures outcome == if answer.Failed? then Fail(MalformedResponse) else Pass
    ensures writer.rows == old(writer.rows) + AnswerRows(answer, StatsRows)
  {
    if answer.Failed? {
      return Fail(MalformedResponse);
    }
    var prs := answer.data;
    ghost var head := writer.rows;
    for i := 0 to |prs|
      invariant writer.rows == head + MapRows(prs[..i], StatsRow)
    {
      ghost var before := writer.rows;
      var total := CountComments(prs[i]);
      writer.Append([Str(prs[i].resourcePath), Int(prs[i].number), Str(prs[i].createdAt),
                     ClosedCell(prs[i].closedAt), Int(total), Int(prs[i].deletions + prs[i].additions)]);
      MapRowsStep(head, before, writer.rows, prs, StatsRow, i);
    }
    assert prs[..|prs|] == prs;
    outcome := Pass;
  }

  /** The loop of main over the roster: get_pr_stats for each repository in
      roster order, up to the first failed query, which raises with the rows
      of the earlier repositories already written. */
  method StreamRoster(writer: RowSink, roster: seq<QueryResult<seq<PullRequest>>>) returns (f: nat)
    modifies writer
    ensures f == FirstFailed(roster)
    ensures writer.rows == old(writer.rows) + RepoRows(roster[..f], StatsRows)
  {
    ghost var head := writer.rows;
    f := 0;
    while f < |roster|
      invariant f <= FirstFailed(roster)
      invariant writer.rows == head + RepoRows(roster[..f], StatsRows)
    {
      ghost var before := writer.rows;
      var outcome := GetPrStats(writer, roster[f]);
      if outcome.Fail? {
        FirstFailedBound(roster, f);
        assert writer.rows == before;
        return;
      }
      RepoRowsStep(head, before, writer.rows, roster, StatsRows, f);
      FirstFailedNext(roster, f);
      f := f + 1;
    }
  }

  /** main: `answers` is None when the roster file does not exist; otherwise
      answers[i] is what the query for the i-th roster row returned. The header
      is written first and rows are streamed, so a failed query leaves the
      rows of the earlier repositories in the file. */
  method RunScript(answers: Option<seq<QueryResult<seq<PullRequest>>>>) returns (run: Run)
    ensures answers.None? ==> run == Run(None, Some(MissingFile(InputPath)))
    ensures answers.Some? ==>
      var f := FirstFailed(answers.value);
      run == Run(Some(Output(OutputPath, [Header] + RepoRows(answers.value[..f], StatsRows))),
                 if f < |answers.value| then Some(MalformedResponse) else None)
  {
    if answers.None? {
      return Run(None, Some(MissingFile(InputPath)));
    }
    var writer := new RowSink();
    writer.Append(Header);
    assert writer.rows == [Header];
    var f := StreamRoster(writer, answers.value);
    run := Run(Some(Output(OutputPath, writer.rows)),
               if f < |answers.value| then Some(MalformedResponse) else None);
  }
}

/** collect_data/pr_stats.py: five-column rows appended to `main.pr_stats`,
    written out only after every repository has been queried. */
module CollectDataPrStats {
  import opened Common
  import opened PrStats

  const Header: Row := [Str("pr_path"), Str("pr_number"), Str("created"),
                        Str("total_comments"), Str("pr_lines_changed")]
  const InputPath := "data/intern_repos.csv"
  const OutputPath := "data/pr_stats.csv"

  function StatsRow(pr: PullRequest): Row
  {
    [Str(pr.resourcePath), Int(pr.number), Str(pr.createdAt),
     Int(TotalComments(pr)), Int(pr.deletions + pr.additions)]
  }

  /** The rows appended for the pull requests of one repository, in node order. */
  function StatsRows(prs: seq<PullRequest>): seq<Row>
  {
    MapRows(prs, StatsRow)
  }

  /** One five-field row per pull request, in node order, matching the
      five-column header; there is no closed column. */
  lemma {:induction false} StatsRowsShape(prs: seq<PullRequest>)
    ensures |StatsRows(prs)| == |prs|
    ensures forall i :: 0 <= i < |prs| ==>
      var row := StatsRows(prs)[i];
      && |row| == |Header|
      && row[0] == Str(prs[i].resourcePath)
      && row[1] == Int(prs[i].number)
      && row[2] == Str(prs[i].createdAt)
      && row[3] == Int(TotalComments(prs[i]))
      && row[4] == Int(prs[i].deletions + prs[i].additions)
  {
    MapRowsAt(prs, StatsRow);
  }

  /** get_pr_stats: appends len(nodes) rows in node order to the list and
      leaves the earlier entries as they were. */
  method GetPrStats(prStats: RowSink, answer: QueryResult<seq<PullRequest>>) returns (outcome: Outcome)
    modifies prStats
    ensures outcome == if answer.Failed? then Fail(MalformedResponse) else Pass
    ensures prStats.rows == old(prStats.rows) + AnswerRows(answer, StatsRows)
  {
    if answer.Failed? {
      return Fail(MalformedResponse);
    }
    var prs := answer.data;
    ghost var head := prStats.rows;
    for i := 0 to |prs|
      invariant prStats.rows == head + MapRows(prs[..i], StatsRow)
    {
      ghost var before := prStats.rows;
      var total := CountComments(prs[i]);
      prStats.Append([Str(prs[i].resourcePath), Int(prs[i].number), Str(prs[i].createdAt),
                      Int(total), Int(prs[i].deletions + prs[i].additions)]);
      MapRowsStep(head, before, prStats.rows, prs, StatsRow, i);
    }
    assert prs[..|prs|] == prs;
    outcome := Pass;
  }

  /** main: the list starts empty; the file is opened only after every query
      succeeded, so a failure leaves no output at all. */
  method RunScript(answers: Option<seq<QueryResult<seq<PullRequest>>>>) returns (run: Run)
    ensures answers.None? ==> run == Run(None, Some(MissingFile(InputPath)))
    ensures answers.Some? && FirstFailed(answers.value) < |answers.value| ==>
      run == Run(None, Some(MalformedResponse))
    ensures answers.Some? && FirstFailed(answers.value) == |answers.value| ==>
      run == Run(Some(Output(OutputPath, [Header] + RepoRows(answers.value, StatsRows))), None)
  {
    var prStats := new RowSink();
    if answers.None? {
      return Run(None, Some(MissingFile(InputPath)));
    }
    var roster := answers.value;
    assert prStats.rows == [];
    var i := 0;
    while i < |roster|
      invariant 0 <= i <= |roster|
      invariant i <= FirstFailed(roster)
      invariant prStats.rows == [] + RepoRows(roster[..i], StatsRows)
    {
      ghost var before := prStats.rows;
      var outcome := GetPrStats(prStats, roster[i]);
      if outcome.Fail? {
        FirstFailedBound(roster, i);
        return Run(None, Some(outcome.error));
      }
      RepoRowsStep([], before, prStats.rows, roster, StatsRows, i);
      FirstFailedNext(roster, i);
      i := i + 1;
    }
    assert roster[..i] == roster;
    assert prStats.rows == RepoRows(roster, StatsRows);
    run := Run(Some(Output(OutputPath, [Header] + prStats.rows)), None);
  }
}
