/** Values shared by every data-collection script: CSV rows, the errors the
    scripts raise, what `run_query` hands back, and the row sink that stands
    for a `csv.writer` or an accumulator list. */
module Common {

  datatype Option<T> = None | Some(value: T)

  datatype Result<T> = Ok(value: T) | Err(error: Error)

  /** Pass, or the exception a step raised. */
  datatype Outcome = Pass | Fail(error: Error)

  /** One CSV cell as the scripts hand it to the writer: a string, an integer,
      or Python's `None` (which the csv module writes as an empty field). */
  datatype Cell = Str(s: string) | Int(n: int) | Null

  type Row = seq<Cell>

  /** The exceptions the scripts raise. */
  datatype Error =
    | Usage(message: string)                // sys.argv[1] is missing
    | UnsupportedRepoType(repoType: string) // repos.py got a type it does not know
    | MissingFile(path: string)             // an input file does not exist
    | MalformedResponse                     // `result['data']` on the `[]` error sentinel
    | RequestFailed                         // a run_query that raises on a non-OK HTTP status

  /** What `run_query` returns: the parsed response's data, or the empty list
      it returns after an API error or a failed request. */
  datatype QueryResult<T> = Answered(data: T) | Failed

  /** A file the script wrote: its path and every row in it, header included. */
  datatype Output = Output(path: string, rows: seq<Row>)

  /** What a script run leaves behind: the output file, if it was opened, and
      the exception it ended with, if any. */
  datatype Run = Run(output: Option<Output>, raised: Option<Error>)

  /** An append-only row sink: a `csv.writer` that rows are streamed into, or a
      list that rows are appended to and written out later. */
  class RowSink {
    var rows: seq<Row>

    constructor ()
      ensures rows == []
    {
      rows := [];
    }

    method Append(r: Row)
      modifies this
      ensures rows == old(rows) + [r]
    {
      rows := rows + [r];
    }
  }

  /** Appending in two steps is appending the two parts at once. */
  lemma AppendAssoc<T>(a: seq<T>, b: seq<T>, c: seq<T>)
    ensures a + b + c == a + (b + c)
  {
  }

  /** A prefix of r stays a prefix of anything appended to r. */
  lemma PrefixExtends<T>(p: seq<T>, r: seq<T>, t: seq<T>)
    requires |p| <= |r| && r[..|p|] == p
    ensures |p| <= |r + t| && (r + t)[..|p|] == p
  {
    assert (r + t)[..|p|] == r[..|p|];
  }

  /** One row per item, in item order: the `for` loops that append a row for
      every node or edge. */
  function MapRows<T>(items: seq<T>, rowOf: T -> Row): seq<Row>
  {
    if items == [] then [] else MapRows(items[..|items| - 1], rowOf) + [rowOf(items[|items| - 1])]
  }

  /** There is exactly one row per item, and row i is item i's row. */
  lemma {:induction false} MapRowsAt<T>(items: seq<T>, rowOf: T -> Row)
    ensures |MapRows(items, rowOf)| == |items|
    ensures forall i :: 0 <= i < |items| ==> MapRows(items, rowOf)[i] == rowOf(items[i])
  {
    if items != [] {
      MapRowsAt(items[..|items| - 1], rowOf);
    }
  }

  /** One more item adds its row after those already written. */
  lemma MapRowsStep<T>(head: seq<Row>, before: seq<Row>, after: seq<Row>,
                       items: seq<T>, rowOf: T -> Row, i: nat)
    requires i < |items|
    requires before == head + MapRows(items[..i], rowOf)
    requires after == before + [rowOf(items[i])]
    ensures after == head + MapRows(items[..i + 1], rowOf)
  {
    assert items[..i + 1][..i] == items[..i];
    AppendAssoc(head, MapRows(items[..i], rowOf), [rowOf(items[i])]);
  }

  /** The rows written for one query's answer: none when the query failed. */
  function AnswerRows<T>(answer: QueryResult<T>, rowsOf: T -> seq<Row>): seq<Row>
  {
    match answer
    case Answered(data) => rowsOf(data)
    case Failed => []
  }

  /** The rows written for a sequence of answers (one per roster repository),
      in order. */
  function RepoRows<T>(answers: seq<QueryResult<T>>, rowsOf: T -> seq<Row>): seq<Row>
  {
    if answers == [] then []
    else RepoRows(answers[..|answers| - 1], rowsOf) + AnswerRows(answers[|answers| - 1], rowsOf)
  }

  /** One more answer adds its rows after those already written. */
  lemma RepoRowsStep<T>(head: seq<Row>, before: seq<Row>, after: seq<Row>,
                        answers: seq<QueryResult<T>>, rowsOf: T -> seq<Row>, i: nat)
    requires i < |answers|
    requires before == head + RepoRows(answers[..i], rowsOf)
    requires after == before + AnswerRows(answers[i], rowsOf)
    ensures after == head + RepoRows(answers[..i + 1], rowsOf)
  {
    assert answers[..i + 1][..i] == answers[..i];
    AppendAssoc(head, RepoRows(answers[..i], rowsOf), AnswerRows(answers[i], rowsOf));
  }

  /** The rows of a roster are the concatenation of each repository's rows. */
  lemma {:induction false} RepoRowsSplit<T>(a: seq<QueryResult<T>>, b: seq<QueryResult<T>>,
                                           rowsOf: T -> seq<Row>)
    ensures RepoRows(a + b, rowsOf) == RepoRows(a, rowsOf) + RepoRows(b, rowsOf)
  {
    if b != [] {
      var b' := b[..|b| - 1];
      RepoRowsSplit(a, b', rowsOf);
      assert (a + b)[..|a + b| - 1] == a + b';
      var x := AnswerRows(b[|b| - 1], rowsOf);
      assert RepoRows(a + b, rowsOf) == RepoRows(a + b', rowsOf) + x;
      assert RepoRows(b, rowsOf) == RepoRows(b', rowsOf) + x;
      AppendAssoc(RepoRows(a, rowsOf), RepoRows(b', rowsOf), x);
    } else {
      assert a + b == a;
    }
  }

  /** The index of the first failed answer, or |answers| when every query was
      answered: the point where a script that does `result['data']` on every
      answer raises. */
  function FirstFailed<T>(answers: seq<QueryResult<T>>): (k: nat)
    ensures k <= |answers|
    ensures k < |answers| ==> answers[k].Failed?
  {
    if answers == [] then 0
    else if answers[0].Failed? then 0
    else 1 + FirstFailed(answers[1..])
  }

  /** Every answer before the first failed one was answered. */
  lemma {:induction false} AnsweredBeforeFirstFailed<T>(answers: seq<QueryResult<T>>, j: nat)
    requires j < FirstFailed(answers)
    ensures answers[j].Answered?
  {
    if j > 0 {
      AnsweredBeforeFirstFailed(answers[1..], j - 1);
    }
  }

  /** An answered query before or at the first failure moves the first
      failure past it. */
  lemma FirstFailedNext<T>(answers: seq<QueryResult<T>>, i: nat)
    requires i <= FirstFailed(answers) && i < |answers| && answers[i].Answered?
    ensures i + 1 <= FirstFailed(answers)
  {
  }

  /** A failed answer at index i means the first failure is at i or before. */
  lemma {:induction false} FirstFailedBound<T>(answers: seq<QueryResult<T>>, i: nat)
    requires i < |answers| && answers[i].Failed?
    ensures FirstFailed(answers) <= i
  {
    if i > 0 && answers[0].Answered? {
      FirstFailedBound(answers[1..], i - 1);
    }
  }
}
