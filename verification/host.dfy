/** data_utils/host.py: flattens the STEP teams CSV into one row per host
    username, each carrying its team's start date and team number. */
module Host {
  import opened Common

  const UsageMessage := "Usage: host.py <STEP teams CSV>"
  const OutputPath := "data/host_usernames.csv"
  const Header: Row := [Str("username"), Str("start_date"), Str("team")]

  /** The columns of a teams CSV row that main reads: "Github username 1",
      "Github username 2", "Start Date" and "Team Number". */
  datatype TeamsRow = TeamsRow(username1: string, username2: string, startDate: string, team: string)

  function HostRow(username: string, r: TeamsRow): Row
  {
    [Str(username), Str(r.startDate), Str(r.team)]
  }

  /** The rows written for one teams row: the first username's, then the
      second's, each only when that cell is not empty. */
  function RowsOf(r: TeamsRow): seq<Row>
  {
    (if r.username1 != "" then [HostRow(r.username1, r)] else [])
    + (if r.username2 != "" then [HostRow(r.username2, r)] else [])
  }

  /** The rows written for the teams rows, in input order. */
  function HostRows(rows: seq<TeamsRow>): seq<Row>
  {
    if rows == [] then [] else HostRows(rows[..|rows| - 1]) + RowsOf(rows[|rows| - 1])
  }

  /** The number of non-empty username cells in the teams rows. */
  function UsernameCount(rows: seq<TeamsRow>): nat
  {
    if rows == [] then 0
    else (if rows[0].username1 != "" then 1 else 0)
         + (if rows[0].username2 != "" then 1 else 0)
         + UsernameCount(rows[1..])
  }

  /** The body of main's loop: a row for each non-empty username cell. */
  method WriteHosts(writer: RowSink, row: TeamsRow)
    modifies writer
    ensures writer.rows == old(writer.rows) + RowsOf(row)
  {
    var startDate := row.startDate;
    var team := row.team;
    if row.username1 != "" {
      writer.Append([Str(row.username1), Str(startDate), Str(team)]);
    }
    if row.username2 != "" {
      writer.Append([Str(row.username2), Str(startDate), Str(team)]);
    }
  }

  /** main: `argv` is sys.argv and `files` maps each existing path to the rows
      its DictReader yields. A missing argument raises; a path that is not a
      file raises before the output is opened; otherwise the output is the
      header followed by the host rows. */
  method RunScript(argv: seq<string>, files: map<string, seq<TeamsRow>>) returns (run: Run)
    ensures |argv| < 2 ==> run == Run(None, Some(Usage(UsageMessage)))
    ensures |argv| >= 2 && argv[1] !in files ==> run == Run(None, Some(MissingFile(argv[1])))
    ensures |argv| >= 2 && argv[1] in files ==>
      run == Run(Some(Output(OutputPath, [Header] + HostRows(files[argv[1]]))), None)
  {
    if |argv| < 2 {
      return Run(None, Some(Usage(UsageMessage)));
    }
    var filename := argv[1];
    if filename !in files {
      return Run(None, Some(MissingFile(filename)));
    }
    var reader := files[filename];
    var writer := new RowSink();
    writer.Append(Header);
    for i := 0 to |reader|
      invariant writer.rows == [Header] + HostRows(reader[..i])
    {
      WriteHosts(writer, reader[i]);
      assert reader[..i + 1][..i] == reader[..i];
    }
    assert reader[..|reader|] == reader;
    run := Run(Some(Output(OutputPath, writer.rows)), None);
  }

  /** Input order is preserved: the rows for consecutive runs of teams rows
      are concatenated. */
  lemma {:induction false} HostRowsSplit(a: seq<TeamsRow>, b: seq<TeamsRow>)
    ensures HostRows(a + b) == HostRows(a) + HostRows(b)
  {
    if b != [] {
      var b' := b[..|b| - 1];
      HostRowsSplit(a, b');
      assert (a + b)[..|a + b| - 1] == a + b';
      AppendAssoc(HostRows(a), HostRows(b'), RowsOf(b[|b| - 1]));
    } else {
      assert a + b == a;
    }
  }

  /** There is exactly one row per non-empty username cell: nothing is
      dropped and nothing is merged, even when a username repeats. */
  lemma {:induction false} HostRowsCount(rows: seq<TeamsRow>)
    ensures |HostRows(rows)| == UsernameCount(rows)
  {
    if rows != [] {
      HostRowsCount(rows[1..]);
      HostRowsSplit([rows[0]], rows[1..]);
      assert [rows[0]] + rows[1..] == rows;
      assert [rows[0]][..0] == [];
    }
  }

  /** Every written row comes from some teams row. */
  lemma {:induction false} HostRowSource(rows: seq<TeamsRow>, out: Row) returns (j: nat)
    requires out in HostRows(rows)
    ensures j < |rows| && out in RowsOf(rows[j])
  {
    var init := rows[..|rows| - 1];
    if out in RowsOf(rows[|rows| - 1]) {
      j := |rows| - 1;
    } else {
      j := HostRowSource(init, out);
      assert rows[j] == init[j];
    }
  }

  /** Every row a teams row yields is written. */
  lemma {:induction false} HostRowWritten(rows: seq<TeamsRow>, j: nat, out: Row)
    requires j < |rows| && out in RowsOf(rows[j])
    ensures out in HostRows(rows)
  {
    var init := rows[..|rows| - 1];
    if j < |init| {
      assert rows[j] == init[j];
      HostRowWritten(init, j, out);
    }
  }

  /** A row is written iff some teams row has that username in one of its two
      cells, and then the row carries that teams row's start date and team. */
  lemma HostRowMembership(rows: seq<TeamsRow>, out: Row)
    ensures out in HostRows(rows) <==>
      exists j :: 0 <= j < |rows| && out in RowsOf(rows[j])
  {
    if out in HostRows(rows) {
      var j := HostRowSource(rows, out);
    }
    if exists j :: 0 <= j < |rows| && out in RowsOf(rows[j]) {
      var j :| 0 <= j < |rows| && out in RowsOf(rows[j]);
      HostRowWritten(rows, j, out);
    }
  }

  /** What RowsOf holds: each row names a non-empty username from one of the
      two cells, with the teams row's own start date and team. */
  lemma RowsOfShape(r: TeamsRow, out: Row)
    ensures out in RowsOf(r) <==>
      || (r.username1 != "" && out == [Str(r.username1), Str(r.startDate), Str(r.team)])
      || (r.username2 != "" && out == [Str(r.username2), Str(r.startDate), Str(r.team)])
  {
  }

  /** Two hosts, first host only, second host only: four rows in order, each
      with its own team's start date and team number. */
  lemma TeamsExample()
    ensures HostRows([TeamsRow("host1", "host2", "date1", "team1"),
                      TeamsRow("host3", "", "date2", "team2"),
                      TeamsRow("", "host4", "date3", "team3")])
         == [[Str("host1"), Str("date1"), Str("team1")],
             [Str("host2"), Str("date1"), Str("team1")],
             [Str("host3"), Str("date2"), Str("team2")],
             [Str("host4"), Str("date3"), Str("team3")]]
  {
    var r1 := TeamsRow("host1", "host2", "date1", "team1");
    var r2 := TeamsRow("host3", "", "date2", "team2");
    var r3 := TeamsRow("", "host4", "date3", "team3");
    assert [r1, r2, r3][..2] == [r1, r2];
    assert [r1, r2][..1] == [r1];
    assert [r1][..0] == [];
    assert HostRows([r1]) == RowsOf(r1);
    assert HostRows([r1, r2]) == RowsOf(r1) + RowsOf(r2);
  }
}
