/** data_utils/repos.py: the repository type picks the search, the header is
    written, and the search pages are streamed into `data/<type>_repos.csv`. */
module DataUtilsRepos {
  import opened Common
  import opened Pagination

  const UsageMessage := "Usage: repos.py <repository type>"

  /** The supported repository types; each selects its own search text, which
      is an opaque string here. */
  datatype Category = Starter | Capstone

  function CategoryName(c: Category): string
  {
    match c
    case Starter => "starter"
    case Capstone => "capstone"
  }

  /** The if/elif/else over the repository type: "starter" and "capstone" are
      supported, anything else raises with the type in the message. */
  function SelectCategory(repoType: string): (r: Result<Category>)
    ensures r.Ok? <==> repoType == "starter" || repoType == "capstone"
    ensures r.Ok? ==> CategoryName(r.value) == repoType
    ensures r.Err? ==> r.error == UnsupportedRepoType(repoType)
  {
    if repoType == "starter" then Ok(Starter)
    else if repoType == "capstone" then Ok(Capstone)
    else Err(UnsupportedRepoType(repoType))
  }

  /** Every category is selected by its own name. */
  lemma CategoryRoundTrip(c: Category)
    ensures SelectCategory(CategoryName(c)) == Ok(c)
  {
  }

  function OutputPath(repoType: string): string
  {
    "data/" + repoType + "_repos.csv"
  }

  /** main: `argv` is sys.argv and `pages[k]` answers the k-th search request.
      A missing argument or an unsupported type raises before any request is
      made or any file is opened. Otherwise the header is written, then the
      rows of every page up to the one that ends the loop; a failed query
      raises and leaves the rows written so far. `cursors` are the cursors the
      requests were made with, in order. */
  method RunScript(argv: seq<string>, pages: seq<Page>) returns (run: Run, cursors: seq<string>)
    requires |argv| >= 2 && SelectCategory(argv[1]).Ok? ==> Terminates(pages)
    ensures |argv| < 2 ==> run == Run(None, Some(Usage(UsageMessage))) && cursors == []
    ensures |argv| >= 2 && SelectCategory(argv[1]).Err? ==>
      run == Run(None, Some(UnsupportedRepoType(argv[1]))) && cursors == []
    ensures |argv| >= 2 && SelectCategory(argv[1]).Ok? ==>
      var last := FirstStop(pages);
      && last < |pages|
      && cursors == Cursors(pages, last + 1)
      && run == Run(Some(Output(OutputPath(argv[1]), [Header] + PagesRows(pages, last + 1))),
                    if pages[last].Failed? then Some(MalformedResponse) else None)
  {
    if |argv| < 2 {
      return Run(None, Some(Usage(UsageMessage))), [];
    }
    var repoType := argv[1];
    var category := SelectCategory(repoType);
    if category.Err? {
      return Run(None, Some(category.error)), [];
    }
    var writer := new RowSink();
    writer.Append(Header);
    assert writer.rows == [Header];
    var last, raised;
    last, cursors, raised := Paginate(writer, pages, MalformedResponse);
    run := Run(Some(Output(OutputPath(repoType), writer.rows)), raised);
  }
}

/** collect_data/repos.py: the same pagination into the list `main.repo_list`,
    written out with the header only once the loop has finished. */
module CollectDataRepos {
  import opened Common
  import opened Pagination

  const OutputPath := "data/intern_repos.csv"

  /** main: the list is reset to empty, the pages are collected, and only then
      is the file opened; a failed query raises and nothing is written. */
  method RunScript(pages: seq<Page>) returns (run: Run, cursors: seq<string>)
    requires Terminates(pages)
    ensures
      var last := FirstStop(pages);
      && last < |pages|
      && cursors == Cursors(pages, last + 1)
      && run == if pages[last].Failed? then Run(None, Some(MalformedResponse))
                else Run(Some(Output(OutputPath, [Header] + PagesRows(pages, last + 1))), None)
  {
    var repoList := new RowSink();
    var last, raised;
    assert repoList.rows == [];
    last, cursors, raised := Paginate(repoList, pages, MalformedResponse);
    if raised.Some? {
      return Run(None, raised), cursors;
    }
    assert repoList.rows == PagesRows(pages, last + 1);
    run := Run(Some(Output(OutputPath, [Header] + repoList.rows)), None);
  }
}

/** collect_data.py: `get_intern_repos` with its nested page function, which
    appends to the enclosing list `intern_repos`. Its `run_query` raises
    itself when the HTTP status is not OK, and otherwise returns the parsed
    body unchanged, so an error response raises only later, at
    `result['data']`. */
module CollectData {
  import opened Common
  import opened Pagination

  const OutputPath := "intern_repos.csv"

  /** What one page request came to: rejected with a non-OK HTTP status
      (`run_query` raises), or returned with a body whose page is `Failed`
      when it carries errors instead of `data`. */
  datatype Response = Rejected | Returned(page: Page)

  /** The page the loop sees: both kinds of failure stop it at this request,
      before any row of the page is appended. */
  function PageOf(r: Response): Page
  {
    if r.Rejected? then Failed else r.page
  }

  function PagesOf(responses: seq<Response>): seq<Page>
  {
    seq(|responses|, i requires 0 <= i < |responses| => PageOf(responses[i]))
  }

  /** The exception a failed request ends the run with: raised by `run_query`
      for a rejected request, by `result['data']` for an error body. */
  function Raised(r: Response): Error
  {
    if r.Rejected? then RequestFailed else MalformedResponse
  }

  /** `responses[k]` answers the k-th page request. The list starts empty and
      the file is opened only after the loop, so a failed request leaves no
      file; which exception ends the run depends on how the request failed. */
  method GetInternRepos(responses: seq<Response>) returns (run: Run, cursors: seq<string>)
    requires Terminates(PagesOf(responses))
    ensures
      var pages := PagesOf(responses);
      var last := FirstStop(pages);
      && last < |pages|
      && cursors == Cursors(pages, last + 1)
      && run == if pages[last].Failed? then Run(None, Some(Raised(responses[last])))
                else Run(Some(Output(OutputPath, [Header] + PagesRows(pages, last + 1))), None)
  {
    var pages := PagesOf(responses);
    var internRepos := new RowSink();
    var last, raised;
    assert internRepos.rows == [];
    last, cursors, raised := Paginate(internRepos, pages, MalformedResponse);
    if raised.Some? {
      return Run(None, Some(Raised(responses[last]))), cursors;
    }
    assert internRepos.rows == PagesRows(pages, last + 1);
    run := Run(Some(Output(OutputPath, [Header] + internRepos.rows)), None);
  }
}
