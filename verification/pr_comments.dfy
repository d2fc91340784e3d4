/** data_utils/pr_comments.py: one row per comment with a non-empty body,
    visiting each pull request's direct comments, then each review followed
    by that review's own comments. */
module PrComments {
  import opened Common

  const Placeholder := "deleted-user"
  const Header: Row := [Str("comment_path"), Str("created"), Str("author"), Str("comment")]
  const InputPath := "data/intern_repos.csv"
  const OutputPath := "data/pr_comments.csv"

  /** A comment node (or a review, which carries the same fields); `author` is
      None when the account was deleted and the API returns `null`. */
  datatype CommentNode = CommentNode(resourcePath: string, body: string, createdAt: string, author: Option<string>)

  datatype ReviewNode = ReviewNode(node: CommentNode, comments: seq<CommentNode>)

  datatype PullRequest = PullRequest(comments: seq<CommentNode>, reviews: seq<ReviewNode>)

  /** The login written for a comment: the author's, or the placeholder. */
  function Login(c: CommentNode): string
  {
    if c.author.Some? then c.author.value else Placeholder
  }

  function CommentRow(c: CommentNode): Row
  {
    [Str(c.resourcePath), Str(c.createdAt), Str(Login(c)), Str(c.body)]
  }

  /** The rows `process_comment` writes for each node of `nodes`, in order. */
  function EmittedRows(nodes: seq<CommentNode>): seq<Row>
  {
    if nodes == [] then []
    else EmittedRows(nodes[..|nodes| - 1])
         + (var c := nodes[|nodes| - 1]; if c.body != "" then [CommentRow(c)] else [])
  }

  /** The nodes whose body is not empty, in their original order. */
  function NonEmpty(nodes: seq<CommentNode>): (r: seq<CommentNode>)
    ensures |r| <= |nodes|
    ensures forall c :: c in r <==> c in nodes && c.body != ""
  {
    if nodes == [] then []
    else NonEmpty(nodes[..|nodes| - 1])
         + (var c := nodes[|nodes| - 1]; if c.body != "" then [c] else [])
  }

  /** The visiting order of the reviews: each review, then its comments. */
  function ReviewsTraversal(reviews: seq<ReviewNode>): seq<CommentNode>
  {
    if reviews == [] then []
    else ReviewsTraversal(reviews[..|reviews| - 1])
         + ([reviews[|reviews| - 1].node] + reviews[|reviews| - 1].comments)
  }

  /** The visiting order inside one pull request: direct comments first. */
  function PrTraversal(pr: PullRequest): seq<CommentNode>
  {
    pr.comments + ReviewsTraversal(pr.reviews)
  }

  /** The visiting order over the pull-request nodes, in node order. */
  function Traversal(prs: seq<PullRequest>): seq<CommentNode>
  {
    if prs == [] then [] else Traversal(prs[..|prs| - 1]) + PrTraversal(prs[|prs| - 1])
  }

  /** process_comment: nothing for an empty body; otherwise a missing author is
      replaced in the node by the placeholder login and one row is written. */
  method ProcessComment(writer: RowSink, comment: CommentNode) returns (updated: CommentNode)
    modifies writer
    ensures comment.body == "" ==> updated == comment && writer.rows == old(writer.rows)
    ensures comment.body != "" ==>
      && updated == comment.(author := Some(Login(comment)))
      && writer.rows == old(writer.rows)
                        + [[Str(updated.resourcePath), Str(updated.createdAt),
                            Str(updated.author.value), Str(updated.body)]]
  {
    updated := comment;
    if comment.body != "" {
      if comment.author.None? {
        updated := updated.(author := Some(Placeholder));
      }
      writer.Append([Str(updated.resourcePath), Str(updated.createdAt),
                     Str(updated.author.value), Str(updated.body)]);
    }
  }

  /** A loop of get_pr_comments over a list of comment nodes (the direct
      comments of a pull request, or the comments of one review). */
  method ProcessComments(writer: RowSink, nodes: seq<CommentNode>)
    modifies writer
    ensures writer.rows == old(writer.rows) + EmittedRows(nodes)
  {
    for j := 0 to |nodes|
      invariant writer.rows == old(writer.rows) + EmittedRows(nodes[..j])
    {
      var _ := ProcessComment(writer, nodes[j]);
      OneRowPerComment(nodes[..j], nodes[j]);
      assert nodes[..j + 1] == nodes[..j] + [nodes[j]];
    }
    assert nodes[..|nodes|] == nodes;
  }

  /** One review of get_pr_comments: the review itself, then its comments. */
  method ProcessReview(writer: RowSink, review: ReviewNode)
    modifies writer
    ensures writer.rows == old(writer.rows) + EmittedRows([review.node] + review.comments)
  {
    var _ := ProcessComment(writer, review.node);
    ProcessComments(writer, review.comments);
    OneRowPerComment([], review.node);
    EmittedRowsSplit([review.node], review.comments);
  }

  /** The body of the loop over pull requests in get_pr_comments: the direct
      comments, then each review and its comments. */
  method ProcessPullRequest(writer: RowSink, pr: PullRequest)
    modifies writer
    ensures writer.rows == old(writer.rows) + EmittedRows(PrTraversal(pr))
  {
    ghost var before := writer.rows;
    ProcessComments(writer, pr.comments);
    ReviewStep(pr, 0);
    for k := 0 to |pr.reviews|
      invariant writer.rows == before + RowsAfterReviews(pr, k)
    {
      ProcessReview(writer, pr.reviews[k]);
      ReviewStep(pr, k + 1);
    }
    ReviewStep(pr, |pr.reviews|);
  }

  /** The rows written for a pull request once its direct comments and its
      first k reviews have been processed. */
  ghost function RowsAfterReviews(pr: PullRequest, k: nat): seq<Row>
    requires k <= |pr.reviews|
  {
    EmittedRows(pr.comments + ReviewsTraversal(pr.reviews[..k]))
  }

  lemma ReviewStep(pr: PullRequest, k: nat)
    requires k <= |pr.reviews|
    ensures k == 0 ==> RowsAfterReviews(pr, k) == EmittedRows(pr.comments)
    ensures k > 0 ==> RowsAfterReviews(pr, k) == RowsAfterReviews(pr, k - 1)
                      + EmittedRows([pr.reviews[k - 1].node] + pr.reviews[k - 1].comments)
    ensures k == |pr.reviews| ==> RowsAfterReviews(pr, k) == EmittedRows(PrTraversal(pr))
  {
    var rs := pr.reviews;
    if k == 0 {
      assert pr.comments + ReviewsTraversal(rs[..k]) == pr.comments;
    } else {
      var visit := [rs[k - 1].node] + rs[k - 1].comments;
      assert rs[..k][..k - 1] == rs[..k - 1];
      assert pr.comments + ReviewsTraversal(rs[..k])
             == (pr.comments + ReviewsTraversal(rs[..k - 1])) + visit;
      EmittedRowsSplit(pr.comments + ReviewsTraversal(rs[..k - 1]), visit);
    }
    assert rs[..|rs|] == rs;
  }

  /** get_pr_comments: the rows are exactly the traversal filtered to non-empty
      bodies; a failed query raises before anything is written. */
  method GetPrComments(writer: RowSink, answer: QueryResult<seq<PullRequest>>) returns (outcome: Outcome)
    modifies writer
    ensures outcome == if answer.Failed? then Fail(MalformedResponse) else Pass
    ensures writer.rows == old(writer.rows) + AnswerRows(answer, PrRows)
  {
    if answer.Failed? {
      return Fail(MalformedResponse);
    }
    var prs := answer.data;
    ghost var head := writer.rows;
    for i := 0 to |prs|
      invariant writer.rows == head + PrRows(prs[..i])
    {
      ghost var before := writer.rows;
      ProcessPullRequest(writer, prs[i]);
      PrRowsStep(head, before, writer.rows, prs, i);
    }
    assert prs[..|prs|] == prs;
    outcome := Pass;
  }

  /** The rows of a page of pull requests: each pull request's rows in node
      order (equal to filtering the whole traversal, see PrRowsFilterTraversal). */
  function PrRows(prs: seq<PullRequest>): seq<Row>
  {
    if prs == [] then [] else PrRows(prs[..|prs| - 1]) + EmittedRows(PrTraversal(prs[|prs| - 1]))
  }

  /** One more pull request adds its rows after those already written. */
  lemma PrRowsStep(head: seq<Row>, before: seq<Row>, after: seq<Row>, prs: seq<PullRequest>, i: nat)
    requires i < |prs|
    requires before == head + PrRows(prs[..i])
    requires after == before + EmittedRows(PrTraversal(prs[i]))
    ensures after == head + PrRows(prs[..i + 1])
  {
    assert prs[..i + 1][..i] == prs[..i];
    AppendAssoc(head, PrRows(prs[..i]), EmittedRows(PrTraversal(prs[i])));
  }

  /** Filtering the traversal of all pull requests gives the same rows as
      filtering each pull request's traversal in turn. */
  lemma {:induction false} PrRowsFilterTraversal(prs: seq<PullRequest>)
    ensures PrRows(prs) == EmittedRows(Traversal(prs))
  {
    if prs != [] {
      var init := prs[..|prs| - 1];
      PrRowsFilterTraversal(init);
      EmittedRowsSplit(Traversal(init), PrTraversal(prs[|prs| - 1]));
    }
  }

  /** The loop of main over the roster: each repository's rows are streamed
      in roster order up to the first failed query, where main raises. */
  method StreamRoster(writer: RowSink, roster: seq<QueryResult<seq<PullRequest>>>) returns (f: nat)
    modifies writer
    ensures f == FirstFailed(roster)
    ensures writer.rows == old(writer.rows) + RepoRows(roster[..f], PrRows)
  {
    ghost var head := writer.rows;
    f := 0;
    while f < |roster|
      invariant f <= FirstFailed(roster)
      invariant writer.rows == head + RepoRows(roster[..f], PrRows)
    {
      ghost var before := writer.rows;
      var outcome := GetPrComments(writer, roster[f]);
      if outcome.Fail? {
        FirstFailedBound(roster, f);
        assert writer.rows == before;
        return;
      }
      RepoRowsStep(head, before, writer.rows, roster, PrRows, f);
      FirstFailedNext(roster, f);
      f := f + 1;
    }
  }

  /** main: header first, then each repository's rows streamed in roster order;
      a failed query raises and leaves the earlier rows in the file. */
  method RunScript(answers: Option<seq<QueryResult<seq<PullRequest>>>>) returns (run: Run)
    ensures answers.None? ==> run == Run(None, Some(MissingFile(InputPath)))
    ensures answers.Some? ==>
      var f := FirstFailed(answers.value);
      run == Run(Some(Output(OutputPath, [Header] + RepoRows(answers.value[..f], PrRows))),
                 if f < |answers.value| then Some(MalformedResponse) else None)
  {
    if answers.None? {
      return Run(None, Some(MissingFile(InputPath)));
    }
    var writer := new RowSink();
    writer.Append(Header);
    assert writer.rows == [Header];
    var f := StreamRoster(writer, answers.value);
    run := Run(Some(Output(OutputPath, writer.rows)),
               if f < |answers.value| then Some(MalformedResponse) else None);
  }

  /** Filtering preserves order: the rows of a concatenation are the rows of
      each part, one after the other. */
  lemma {:induction false} EmittedRowsSplit(a: seq<CommentNode>, b: seq<CommentNode>)
    ensures EmittedRows(a + b) == EmittedRows(a) + EmittedRows(b)
  {
    if b != [] {
      var b' := b[..|b| - 1];
      EmittedRowsSplit(a, b');
      assert (a + b)[..|a + b| - 1] == a + b';
      AppendAssoc(EmittedRows(a), EmittedRows(b'), var c := b[|b| - 1]; if c.body != "" then [CommentRow(c)] else []);
    } else {
      assert a + b == a;
    }
  }

  /** The rows are the non-empty-body nodes, in order, one row each: path,
      created, the author's login or "deleted-user" when there is no author,
      and the body verbatim. So there are never more rows than nodes. */
  lemma {:induction false} EmittedRowsAreFiltered(nodes: seq<CommentNode>)
    ensures |EmittedRows(nodes)| == |NonEmpty(nodes)| <= |nodes|
    ensures forall i :: 0 <= i < |NonEmpty(nodes)| ==>
      var c := NonEmpty(nodes)[i];
      && c.body != ""
      && EmittedRows(nodes)[i] == [Str(c.resourcePath), Str(c.createdAt),
           Str(if c.author.Some? then c.author.value else "deleted-user"), Str(c.body)]
  {
    if nodes != [] {
      var init := nodes[..|nodes| - 1];
      EmittedRowsAreFiltered(init);
      var c := nodes[|nodes| - 1];
      if c.body != "" {
        assert NonEmpty(nodes) == NonEmpty(init) + [c];
        assert NonEmpty(nodes)[|NonEmpty(init)|] == c;
      }
    }
  }

  /** A row is written iff some visited node with a non-empty body produces it. */
  lemma {:induction false} EmittedRowMembership(nodes: seq<CommentNode>, row: Row)
    ensures row in EmittedRows(nodes) <==> exists c :: c in nodes && c.body != "" && row == CommentRow(c)
  {
    if nodes != [] {
      var init := nodes[..|nodes| - 1];
      var last := nodes[|nodes| - 1];
      EmittedRowMembership(init, row);
      assert nodes == init + [last];
      if exists c :: c in nodes && c.body != "" && row == CommentRow(c) {
        var c :| c in nodes && c.body != "" && row == CommentRow(c);
        if c != last {
          assert c in init;
        }
      }
      if exists c :: c in init && c.body != "" && row == CommentRow(c) {
        var c :| c in init && c.body != "" && row == CommentRow(c);
        assert c in nodes;
      }
    }
  }

  /** A comment with an empty body produces no row; any other comment produces
      exactly one. */
  lemma OneRowPerComment(prefix: seq<CommentNode>, c: CommentNode)
    ensures c.body == "" ==> EmittedRows(prefix + [c]) == EmittedRows(prefix)
    ensures c.body != "" ==> EmittedRows(prefix + [c]) == EmittedRows(prefix) + [CommentRow(c)]
  {
    assert (prefix + [c])[..|prefix|] == prefix;
  }

  lemma {:induction false} ReviewsTraversalSplit(a: seq<ReviewNode>, b: seq<ReviewNode>)
    ensures ReviewsTraversal(a + b) == ReviewsTraversal(a) + ReviewsTraversal(b)
  {
    if b != [] {
      var b' := b[..|b| - 1];
      ReviewsTraversalSplit(a, b');
      assert (a + b)[..|a + b| - 1] == a + b';
      AppendAssoc(ReviewsTraversal(a), ReviewsTraversal(b'), [b[|b| - 1].node] + b[|b| - 1].comments);
    } else {
      assert a + b == a;
    }
  }

  /** Within a pull request the direct comments come first, and every review is
      visited right before its own comments, after all earlier reviews and
      their comments. */
  lemma PrTraversalOrder(pr: PullRequest, k: nat)
    requires k < |pr.reviews|
    ensures PrTraversal(pr)[..|pr.comments|] == pr.comments
    ensures PrTraversal(pr) == pr.comments + ReviewsTraversal(pr.reviews[..k])
                               + [pr.reviews[k].node] + pr.reviews[k].comments
                               + ReviewsTraversal(pr.reviews[k + 1..])
  {
    var rs := pr.reviews;
    assert rs == rs[..k] + [rs[k]] + rs[k + 1..];
    ReviewsTraversalSplit(rs[..k] + [rs[k]], rs[k + 1..]);
    ReviewsTraversalSplit(rs[..k], [rs[k]]);
    var a := ReviewsTraversal(rs[..k]);
    var b := [rs[k].node] + rs[k].comments;
    var c := ReviewsTraversal(rs[k + 1..]);
    assert ReviewsTraversal([rs[k]]) == b by {
      assert [rs[k]][..0] == [];
    }
    assert ReviewsTraversal(rs) == a + b + c;
    assert pr.comments + (a + b + c) == pr.comments + a + [rs[k].node] + rs[k].comments + c;
  }

  /** Pull requests are visited in node order. */
  lemma {:induction false} TraversalSplit(a: seq<PullRequest>, b: seq<PullRequest>)
    ensures Traversal(a + b) == Traversal(a) + Traversal(b)
  {
    if b != [] {
      var b' := b[..|b| - 1];
      TraversalSplit(a, b');
      assert (a + b)[..|a + b| - 1] == a + b';
      AppendAssoc(Traversal(a), Traversal(b'), PrTraversal(b[|b| - 1]));
    } else {
      assert a + b == a;
    }
  }
}
