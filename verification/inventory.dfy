/**
 * The container list: the text `docker ps -a` prints with one container per
 * line (id, name, status), how one line becomes a table row, the search
 * filter, and the rows a refresh puts in the table.
 */
module Inventory {
  import opened Wrappers
  import opened PyStr

  /** The command whose output fills the table. */
  const ListCommand: string := "docker ps -a --format '{{.ID}} {{.Names}} {{.Status}}'"

  /** One row of the table: the three columns ID, Name and Status. */
  datatype Row = Row(id: string, name: string, status: string)

  /**
   * What a parsed row looks like: id and name are single words; the status
   * is the non-empty rest of the line, trimmed, possibly with inner spaces.
   */
  predicate WellFormed(row: Row) {
    row.id != [] && NoSpace(row.id)
    && row.name != [] && NoSpace(row.name)
    && row.status != [] && Trimmed(row.status)
  }

  /** A row the way the list command prints it. */
  function Format(row: Row): string {
    row.id + " " + row.name + " " + row.status
  }

  /**
   * One line of the listing: stripped, then split on whitespace at most
   * twice; a line that does not give three fields gives no row.
   */
  function ParseLine(line: string): Option<Row> {
    var parts := Split(Strip(line), 2);
    if |parts| == 3 then Some(Row(parts[0], parts[1], parts[2])) else None
  }

  /**
   * A line gives a row exactly when it holds at least three words; the row
   * is well formed, and the stripped line is its id, a run of whitespace,
   * its name, a run of whitespace and its status, with the spaces inside
   * the status kept.
   */
  lemma ParseLineSpec(line: string)
    ensures var r := ParseLine(line);
      (r.Some? <==> |Split(Strip(line), -1)| >= 3)
      && (r.Some? ==> WellFormed(r.value))
      && (r.Some? ==> IsPrefix(r.value.id, Strip(line)) && IsSuffix(r.value.status, Strip(line)))
    ensures var r := ParseLine(line);
      r.Some? ==> exists g1, g2 ::
        g1 != [] && AllSpace(g1) && g2 != [] && AllSpace(g2) && Strip(line) == r.value.id + g1 + r.value.name + g2 + r.value.status
  {
    var t := Strip(line);
    var parts := Split(t, 2);
    SplitCount(t, 2);
    SplitFields(t, 2);
    if |parts| == 3 {
      SplitFirstPrefix(t, 2);
      assert IsField(parts[2]) && IsSuffix(parts[2], t);
      assert parts[2][|parts[2]| - 1] == t[|t| - 1];
      ParseLineGaps(t, parts);
    }
  }

  /** The three fields of a stripped line sit between two runs of whitespace. */
  lemma ParseLineGaps(t: string, parts: seq<string>)
    requires t != [] && Trimmed(t) && parts == Split(t, 2) && |parts| == 3
    ensures exists g1, g2 ::
      g1 != [] && AllSpace(g1) && g2 != [] && AllSpace(g2) && t == parts[0] + g1 + parts[1] + g2 + parts[2]
  {
    SplitFields(t, 2);
    var gaps :| Separates(gaps, parts) && t == Joined(gaps, parts)
      && (t != [] && !IsSpace(t[0]) ==> gaps[0] == [])
      && (|parts| == 2 + 1 ==> gaps[|parts|] == []);
    JoinedThree(gaps, parts);
    assert gaps[0] == [] && gaps[3] == [];
    assert AllSpace(gaps[1]) && AllSpace(gaps[2]);
    assert t == parts[0] + gaps[1] + parts[1] + gaps[2] + parts[2];
  }

  /** Where the three columns and the two spaces sit in a printed row. */
  lemma FormatLayout(row: Row)
    ensures var s := Format(row);
      var n1 := |row.id|;
      var n2 := |row.id| + 1 + |row.name|;
      |s| == n2 + 1 + |row.status|
      && s[n1] == ' ' && s[n2] == ' '
      && s[0..n1] == row.id && s[n1 + 1..n2] == row.name && s[n2 + 1..] == row.status
  {
    var s := Format(row);
    var n1 := |row.id|;
    var n2 := |row.id| + 1 + |row.name|;
    assert s == row.id + " " + row.name + " " + row.status;
    assert s[0..n1] == row.id;
    assert s[n1 + 1..n2] == row.name;
    assert s[n2 + 1..] == row.status;
  }

  /** A printed well-formed row is trimmed and has the three columns of a listing line. */
  lemma FormatColumns(row: Row)
    requires WellFormed(row)
    ensures Trimmed(Format(row)) && Columns(Format(row), |row.id|, |row.id| + 1 + |row.name|)
  {
    var s := Format(row);
    var n1 := |row.id|;
    var n2 := |row.id| + 1 + |row.name|;
    FormatLayout(row);
    WordInSlice(s, 0, n1);
    WordInSlice(s, n1 + 1, n2);
    FormatEnds(s, n1, n2, row.id, row.status);
  }

  /** The first and last characters of a printed row are those of its id and its status. */
  lemma FormatEnds(s: string, n1: nat, n2: nat, id: string, status: string)
    requires 0 < n1 <= n2 < |s| && s[0..n1] == id && s[n2 + 1..] == status && status != []
    ensures s[0] == id[0] && s[n2 + 1] == status[0] && s[|s| - 1] == status[|status| - 1]
  {
    assert s[0] == s[0..n1][0];
    assert s[n2 + 1] == s[n2 + 1..][0];
    assert s[|s| - 1] == s[n2 + 1..][|status| - 1];
  }

  /** A printed row splits into its three columns. */
  lemma SplitFormat(row: Row)
    requires WellFormed(row)
    ensures Split(Format(row), 2) == [row.id, row.name, row.status]
  {
    FormatColumns(row);
    SplitColumns(Format(row), |row.id|, |row.id| + 1 + |row.name|);
    FormatLayout(row);
  }

  /** A well-formed row survives being printed and parsed back. */
  lemma ParseFormat(row: Row)
    requires WellFormed(row)
    ensures ParseLine(Format(row)) == Some(row)
  {
    FormatColumns(row);
    StripTrimmed(Format(row));
    SplitFormat(row);
  }

  /** Leading and trailing whitespace around a line does not change its row. */
  lemma ParsePadded(g0: string, line: string, g1: string)
    requires AllSpace(g0) && AllSpace(g1) && Trimmed(line)
    ensures ParseLine(g0 + line + g1) == ParseLine(line)
  {
    StripPadded(g0, line, g1);
    StripTrimmed(line);
  }

  /** A line of two words, such as an id and a name without a status, gives no row. */
  lemma ParseTwoWords(w1: string, w2: string)
    requires w1 != [] && NoSpace(w1) && w2 != [] && NoSpace(w2)
    ensures ParseLine(w1 + " " + w2).None?
  {
    var s := w1 + " " + w2;
    var n := |w1|;
    TwoWordsLayout(w1, w2);
    StripTrimmed(s);
    SplitFromWordGap(s, 0, n, -1);
    SplitFromWord(s, n + 1, |s|, -1);
    SplitFromEnd(s, -1);
    ParseLineSpec(s);
  }

  /** Where the two words of `w1 + " " + w2` sit. */
  lemma TwoWordsLayout(w1: string, w2: string)
    requires w1 != [] && NoSpace(w1) && w2 != [] && NoSpace(w2)
    ensures var s := w1 + " " + w2;
      |w1| + 1 < |s| && Trimmed(s) && WordIn(s, 0, |w1|) && IsSpace(s[|w1|]) && WordIn(s, |w1| + 1, |s|)
  {
    var s := w1 + " " + w2;
    forall k | 0 <= k < |w1| ensures s[k] == w1[k] { }
    forall k | |w1| + 1 <= k < |s| ensures s[k] == w2[k - |w1| - 1] { }
  }

  /** The listing line "abc123 onlyname" gives no row. */
  lemma ParseIdAndNameOnly()
    ensures ParseLine("abc123 onlyname").None?
  {
    assert "abc123 onlyname" == "abc123" + " " + "onlyname";
    assert NoSpace("abc123") && NoSpace("onlyname");
    ParseTwoWords("abc123", "onlyname");
  }

  /**
   * The search rule: the filter, lower-cased, occurs in the lower-cased name
   * or in the lower-cased status.
   */
  predicate Matches(row: Row, filter: string) {
    Contains(Lower(filter), Lower(row.name)) || Contains(Lower(filter), Lower(row.status))
  }

  /** The empty filter matches every row. */
  lemma EmptyFilterMatches(row: Row)
    ensures Matches(row, [])
  {
    ContainsEmpty(Lower(row.name));
  }

  /** Matching ignores case: a filter and its lower-cased form match the same rows. */
  lemma MatchesIgnoresCase(row: Row, filter: string)
    ensures Matches(row, Lower(filter)) == Matches(row, filter)
  {
    LowerTwice(filter);
  }

  /** The id column is never searched: changing a row's id never changes whether it matches. */
  lemma IdNeverMatched(row: Row, id: string, filter: string)
    ensures Matches(row.(id := id), filter) == Matches(row, filter)
  {
  }

  /** The filter "web" keeps a row by its name or by its status, and drops one matching in neither. */
  lemma FilterWeb()
    ensures Matches(Row("a1", "web-server", "Up"), "web")
    ensures Matches(Row("a2", "db", "Up (healthy) web"), "web")
    ensures !Matches(Row("a3", "db", "Exited"), "web")
  {
    assert Lower("web") == "web";
    assert Lower("web-server") == "web-server";
    assert OccursAt("web", "web-server", 0);
    assert Lower("Up (healthy) web") == "up (healthy) web";
    assert OccursAt("web", "up (healthy) web", 13);
    ContainsShorter("web", Lower("db"));
    assert Lower("Exited") == "exited";
    forall i: nat | i <= |"exited"| ensures !OccursAt("web", "exited", i) {
      if i + 3 <= 6 {
        assert "exited"[i..i + 3][0] == "exited"[i];
      }
    }
  }

  /** The line parses into `row` and `row` matches the filter. */
  predicate Yields(line: string, filter: string, row: Row) {
    ParseLine(line) == Some(row) && Matches(row, filter)
  }

  /** What one line adds to the table: its row when it parses and matches, else nothing. */
  function LineRows(line: string, filter: string): (rows: seq<Row>)
    ensures |rows| <= 1
  {
    match ParseLine(line)
    case Some(row) => if Matches(row, filter) then [row] else []
    case None => []
  }

  /** A line adds a row exactly when it yields that row. */
  lemma LineRowsMember(line: string, filter: string, row: Row)
    ensures row in LineRows(line, filter) <==> Yields(line, filter, row)
  {
  }

  /** The rows of the table are well formed and match the filter. */
  predicate Sound(rows: seq<Row>, filter: string) {
    forall k :: 0 <= k < |rows| ==> WellFormed(rows[k]) && Matches(rows[k], filter)
  }

  /** What one line adds is well formed and matches the filter. */
  lemma LineRowsSound(line: string, filter: string)
    ensures Sound(LineRows(line, filter), filter)
  {
    ParseLineSpec(line);
  }

  /** The rows some lines give one after another, where `each` says what one line gives. */
  function Gather(lines: seq<string>, each: string -> seq<Row>): seq<Row>
    decreases |lines|
  {
    if lines == [] then [] else Gather(lines[..|lines| - 1], each) + each(lines[|lines| - 1])
  }

  lemma AppendAssoc(x: seq<Row>, y: seq<Row>, z: seq<Row>)
    ensures (x + y) + z == x + (y + z)
  {
  }

  /** Gathering over two runs of lines one after the other gives the rows of each run, in order. */
  lemma {:induction false} GatherAppend(a: seq<string>, b: seq<string>, each: string -> seq<Row>)
    ensures Gather(a + b, each) == Gather(a, each) + Gather(b, each)
    decreases |b|
  {
    if b == [] {
      assert a + b == a;
    } else {
      var front := b[..|b| - 1];
      var last := b[|b| - 1];
      GatherAppend(a, front, each);
      assert (a + b)[..|a + b| - 1] == a + front;
      assert (a + b)[|a + b| - 1] == last;
      calc {
        Gather(a + b, each);
        Gather(a + front, each) + each(last);
        (Gather(a, each) + Gather(front, each)) + each(last);
        { AppendAssoc(Gather(a, each), Gather(front, each), each(last)); }
        Gather(a, each) + (Gather(front, each) + each(last));
      }
    }
  }

  /** A row is gathered exactly when some line gives it. */
  lemma {:induction false} GatherMember(lines: seq<string>, each: string -> seq<Row>, row: Row)
    ensures row in Gather(lines, each) <==> exists k :: 0 <= k < |lines| && row in each(lines[k])
    decreases |lines|
  {
    if lines != [] {
      var front := lines[..|lines| - 1];
      GatherMember(front, each, row);
      if row in Gather(lines, each) && row !in each(lines[|lines| - 1]) {
        var k :| 0 <= k < |front| && row in each(front[k]);
        assert lines[k] == front[k];
      }
      if exists k :: 0 <= k < |lines| && row in each(lines[k]) {
        var k :| 0 <= k < |lines| && row in each(lines[k]);
        if k < |front| {
          assert front[k] == lines[k];
        }
      }
    }
  }

  /** When every line gives exactly one row, the gathered rows are those rows, line by line. */
  lemma {:induction false} GatherSingles(lines: seq<string>, each: string -> seq<Row>)
    requires forall k :: 0 <= k < |lines| ==> |each(lines[k])| == 1
    ensures |Gather(lines, each)| == |lines|
    ensures forall k :: 0 <= k < |lines| ==> Gather(lines, each)[k] == each(lines[k])[0]
    decreases |lines|
  {
    if lines != [] {
      var front := lines[..|lines| - 1];
      forall k | 0 <= k < |front| ensures |each(front[k])| == 1 {
        assert front[k] == lines[k];
      }
      GatherSingles(front, each);
      forall k | 0 <= k < |lines| ensures Gather(lines, each)[k] == each(lines[k])[0] {
        if k < |front| {
          assert front[k] == lines[k];
        }
      }
    }
  }

  /**
   * The rows one refresh keeps, in the order of their lines: each line that
   * parses into a row matching the filter gives that row, and nothing else
   * does.
   */
  function Select(lines: seq<string>, filter: string): seq<Row> {
    Gather(lines, line => LineRows(line, filter))
  }

  /** Keeping rows line by line: the rows of the first lines, then what the next line gives. */
  lemma SelectStep(lines: seq<string>, i: nat, filter: string)
    requires i < |lines|
    ensures Select(lines[..i + 1], filter) == Select(lines[..i], filter) + LineRows(lines[i], filter)
  {
    assert lines[..i + 1][..i] == lines[..i];
  }

  /** A row is in the table exactly when some line yields it. */
  lemma SelectMember(lines: seq<string>, filter: string, row: Row)
    ensures row in Select(lines, filter) <==> exists k :: 0 <= k < |lines| && Yields(lines[k], filter, row)
  {
    var each := line => LineRows(line, filter);
    GatherMember(lines, each, row);
    forall k | 0 <= k < |lines| ensures row in each(lines[k]) <==> Yields(lines[k], filter, row) {
      LineRowsMember(lines[k], filter, row);
    }
  }

  /** Every row in the table is well formed and matches the filter. */
  lemma SelectSound(lines: seq<string>, filter: string)
    ensures Sound(Select(lines, filter), filter)
  {
    var rows := Select(lines, filter);
    forall j | 0 <= j < |rows| ensures WellFormed(rows[j]) && Matches(rows[j], filter) {
      SelectMember(lines, filter, rows[j]);
      var k :| 0 <= k < |lines| && Yields(lines[k], filter, rows[j]);
      ParseLineSpec(lines[k]);
    }
  }

  /** The rows of two listings one after the other are the rows of each, in order. */
  lemma SelectAppend(a: seq<string>, b: seq<string>, filter: string)
    ensures Select(a + b, filter) == Select(a, filter) + Select(b, filter)
  {
    GatherAppend(a, b, line => LineRows(line, filter));
  }

  /** Every line parses. */
  predicate AllParse(lines: seq<string>) {
    forall k :: 0 <= k < |lines| ==> ParseLine(lines[k]).Some?
  }

  /** With the empty filter a line that parses gives exactly its row. */
  lemma LineRowsEmptyFilter(line: string)
    requires ParseLine(line).Some?
    ensures LineRows(line, []) == [ParseLine(line).value]
  {
    EmptyFilterMatches(ParseLine(line).value);
  }

  /** With the empty filter every line that parses gives its row, in order. */
  lemma EmptyFilterKeepsAll(lines: seq<string>)
    requires AllParse(lines)
    ensures |Select(lines, [])| == |lines|
    ensures forall k :: 0 <= k < |lines| ==> Select(lines, [])[k] == ParseLine(lines[k]).value
  {
    var each := line => LineRows(line, []);
    forall k | 0 <= k < |lines| ensures each(lines[k]) == [ParseLine(lines[k]).value] {
      LineRowsEmptyFilter(lines[k]);
    }
    GatherSingles(lines, each);
  }

  /**
   * The table a refresh shows for the list command's output: the output,
   * stripped, is cut into lines, and each line is parsed and filtered.
   */
  function TableRows(output: string, filter: string): seq<Row> {
    Select(SplitSep(Strip(output), '\n'), filter)
  }

  /** Empty or whitespace-only output gives an empty table. */
  lemma TableRowsBlank(output: string, filter: string)
    requires AllSpace(output)
    ensures TableRows(output, filter) == []
  {
    var lines := SplitSep(Strip(output), '\n');
    var each := line => LineRows(line, filter);
    assert lines == [[]];
    assert Split([], 2) == [];
    assert each([]) == [];
    assert Gather(lines, each) == Gather(lines[..0], each) + each(lines[0]);
    assert lines[..0] == [];
  }

  /** Every row shown is well formed and matches the filter. */
  lemma TableRowsSound(output: string, filter: string)
    ensures Sound(TableRows(output, filter), filter)
  {
    SelectSound(SplitSep(Strip(output), '\n'), filter);
  }

  /** A row with a single-line status: what the list command prints for a container. */
  predicate Printable(row: Row) {
    WellFormed(row) && '\n' !in row.status
  }

  /** The lines the list command prints for some rows. */
  function Listing(rows: seq<Row>): string
    requires |rows| >= 1
  {
    JoinSep(Printed(rows), '\n')
  }

  /** The printed form of each row, in order. */
  function Printed(rows: seq<Row>): (lines: seq<string>)
    ensures |lines| == |rows| && forall k :: 0 <= k < |rows| ==> lines[k] == Format(rows[k])
  {
    seq(|rows|, k requires 0 <= k < |rows| => Format(rows[k]))
  }

  /** A printed row holds no line break. */
  lemma FormatOneLine(row: Row)
    requires Printable(row)
    ensures '\n' !in Format(row)
  {
    assert IsSpace('\n');
    var line := Format(row);
    forall k | 0 <= k < |line| ensures line[k] != '\n' {
      if k < |row.id| {
        assert line[k] == row.id[k];
      } else if k == |row.id| {
      } else if k < |row.id| + 1 + |row.name| {
        assert line[k] == row.name[k - |row.id| - 1];
      } else if k == |row.id| + 1 + |row.name| {
      } else {
        assert line[k] == row.status[k - |row.id| - 2 - |row.name|];
      }
    }
  }

  /** A listing starts with the first row's id and ends with the last row's status. */
  lemma {:induction false} ListingEnds(pieces: seq<string>)
    requires |pieces| >= 1
    requires forall k :: 0 <= k < |pieces| ==> Trimmed(pieces[k]) && pieces[k] != []
    ensures Trimmed(JoinSep(pieces, '\n')) && JoinSep(pieces, '\n') != []
    decreases |pieces|
  {
    if |pieces| > 1 {
      ListingEnds(pieces[1..]);
      var rest := JoinSep(pieces[1..], '\n');
      var s := pieces[0] + ['\n'] + rest;
      assert s[0] == pieces[0][0];
      assert s[|s| - 1] == rest[|rest| - 1];
    }
  }

  /** Filling the table from a listing with the empty filter shows exactly the listed rows. */
  lemma TableOfListing(rows: seq<Row>)
    requires |rows| >= 1
    requires forall k :: 0 <= k < |rows| ==> Printable(rows[k])
    ensures TableRows(Listing(rows), []) == rows
  {
    var pieces := Printed(rows);
    var text := Listing(rows);
    PrintedLines(rows);
    ListingEnds(pieces);
    StripTrimmed(text);
    SplitJoinSep(pieces, '\n');
    EmptyFilterKeepsAll(pieces);
  }

  /** Each printed line is trimmed, non-empty, a single line, and parses back to its row. */
  lemma PrintedLines(rows: seq<Row>)
    requires forall k :: 0 <= k < |rows| ==> Printable(rows[k])
    ensures AllParse(Printed(rows))
    ensures forall k :: 0 <= k < |rows| ==>
      Trimmed(Printed(rows)[k]) && Printed(rows)[k] != [] && '\n' !in Printed(rows)[k] && ParseLine(Printed(rows)[k]) == Some(rows[k])
  {
    forall k | 0 <= k < |rows|
      ensures Trimmed(Printed(rows)[k]) && Printed(rows)[k] != [] && '\n' !in Printed(rows)[k] && ParseLine(Printed(rows)[k]) == Some(rows[k])
    {
      FormatOneLine(rows[k]);
      ParseFormat(rows[k]);
      var line := Format(rows[k]);
      assert line[0] == rows[k].id[0];
      assert line[|line| - 1] == rows[k].status[|rows[k].status| - 1];
    }
  }
}
