/**
 * The curated section of the document: the text between the two marker
 * comments, the addresses and table lines read out of it, and how a rebuilt
 * table is spliced back in its place.
 */
module ReadmeSection {
  import opened Options
  import opened PyStrings
  import opened GithubUrls

  const MarkerStart: string := "<!-- NANO_LIST_START -->"
  const MarkerEnd: string := "<!-- NANO_LIST_END -->"
  const HeaderLine: string := "| Name | Description | Stars |"
  const SeparatorLine: string := "|------|-------------|-------|"
  const TableHeader: string := HeaderLine + "\n" + SeparatorLine + "\n"

  /** Both markers occur in the document. */
  predicate HasMarkers(readme: string) {
    Find(readme, MarkerStart) != -1 && Find(readme, MarkerEnd) != -1
  }

  /** `readme_content[start_idx:end_idx]`: from the start marker up to the end marker. */
  function UrlSection(readme: string): string
    requires HasMarkers(readme)
  {
    Slice(readme, Find(readme, MarkerStart), Find(readme, MarkerEnd))
  }

  /** The addresses `parse_existing_entries` collects: every match in the section, in canonical form. */
  ghost function ExistingUrls(readme: string): set<string> {
    if HasMarkers(readme) then MatchedUrls(UrlSection(readme), 0) else {}
  }

  /** The `finditer` loop of `parse_existing_entries`: the canonical forms of the matches in `section`. */
  method CollectUrls(section: string) returns (urls: set<string>)
    ensures urls == MatchedUrls(section, 0)
  {
    urls := {};
    var i := 0;
    while i < |section|
      invariant 0 <= i <= |section|
      invariant urls + MatchedUrls(section, i) == MatchedUrls(section, 0)
      decreases |section| - i
    {
      match MatchAt(section, i)
      case Some(e) =>
        MatchedUrlsHit(urls, section, i);
        urls := urls + {Canonical(section[i..e])};
        i := e;
      case None =>
        MatchedUrlsMiss(section, i);
        i := i + 1;
    }
  }

  /**
   * `parse_existing_entries(readme_content)`: the canonical forms of the
   * addresses `finditer` yields in the section; nothing when a marker is
   * missing.
   */
  method ParseExistingEntries(readme: string) returns (urls: set<string>)
    ensures urls == ExistingUrls(readme)
    ensures !HasMarkers(readme) ==> urls == {}
  {
    var startIdx := Find(readme, MarkerStart);
    var endIdx := Find(readme, MarkerEnd);
    if startIdx == -1 || endIdx == -1 {
      return {};
    }
    urls := CollectUrls(UrlSection(readme));
  }

  /** Every collected entry is a repository address of the pattern, already in lower case. */
  lemma ExistingUrlsAreAddresses(readme: string, u: string)
    requires u in ExistingUrls(readme)
    ensures IsUrlText(u) && Lower(u) == u
  {
    var section := UrlSection(readme);
    var ms := FindAll(section, 0);
    var k := MatchedUrlsOfFindAll(section, 0, u);
    MatchAtIsUrl(section, ms[k].0);
    CanonicalOfUrl(section[ms[k].0..ms[k].1]);
  }

  /** A line `parse_table_rows` keeps: it starts with `|` and is neither the header nor the separator. */
  predicate IsDataLine(line: string) {
    StartsWith(line, "|") && !StartsWith(line, "| Name") && !StartsWith(line, "|---")
  }

  /**
   * The body of the loop over the section's lines: the line stripped, kept
   * when it is a data line, skipped otherwise.
   */
  function Kept(line: string): seq<string> {
    if IsDataLine(Strip(line)) then [Strip(line)] else []
  }

  /** The stripped lines of `lines` that are data lines, in order. */
  ghost function DataLines(lines: seq<string>): seq<string> {
    if lines == [] then [] else Kept(lines[0]) + DataLines(lines[1..])
  }

  /** `readme_content[start_idx + len(MARKER_START):end_idx].strip()` */
  function RowSection(readme: string): string
    requires HasMarkers(readme)
  {
    Strip(Slice(readme, Find(readme, MarkerStart) + |MarkerStart|, Find(readme, MarkerEnd)))
  }

  /** The rows `parse_table_rows` returns. */
  ghost function TableRowsOf(readme: string): seq<string> {
    if HasMarkers(readme) then DataLines(Split(RowSection(readme), '\n')) else []
  }

  lemma DataLinesStep(lines: seq<string>, i: nat)
    requires i < |lines|
    ensures DataLines(lines[i..]) == Kept(lines[i]) + DataLines(lines[i + 1..])
  {
    assert lines[i..][1..] == lines[i + 1..];
  }

  /** The loop of `parse_table_rows`: strip each line and keep the data lines. */
  method KeepDataLines(lines: seq<string>) returns (rows: seq<string>)
    ensures rows == DataLines(lines)
  {
    rows := [];
    assert lines[0..] == lines;
    for i := 0 to |lines|
      invariant rows + DataLines(lines[i..]) == DataLines(lines)
    {
      ghost var rest := DataLines(lines[i + 1..]);
      DataLinesStep(lines, i);
      var kept := Kept(lines[i]);
      assert rows + (kept + rest) == (rows + kept) + rest;
      rows := rows + kept;
    }
    assert lines[|lines|..] == [];
  }

  /**
   * `parse_table_rows(readme_content)`: the data lines of the section,
   * stripped and in order; nothing when a marker is missing.
   */
  method ParseTableRows(readme: string) returns (rows: seq<string>)
    ensures rows == TableRowsOf(readme)
    ensures !HasMarkers(readme) ==> rows == []
  {
    var startIdx := Find(readme, MarkerStart);
    var endIdx := Find(readme, MarkerEnd);
    if startIdx == -1 || endIdx == -1 {
      return [];
    }
    var section := RowSection(readme);
    rows := KeepDataLines(Split(section, '\n'));
  }

  /** Every line that is a data line once stripped is kept. */
  lemma {:induction false} DataLinesKeep(lines: seq<string>, i: nat)
    requires i < |lines| && IsDataLine(Strip(lines[i]))
    ensures Strip(lines[i]) in DataLines(lines)
  {
    var row := Strip(lines[i]);
    var rest := DataLines(lines[1..]);
    assert DataLines(lines) == Kept(lines[0]) + rest;
    if i == 0 {
      assert Kept(lines[0]) == [row];
    } else {
      assert lines[1..][i - 1] == lines[i];
      DataLinesKeep(lines[1..], i - 1);
      assert row in rest;
    }
  }

  /** Every kept row is a stripped line of `lines` that is a data line. */
  lemma {:induction false} DataLinesFrom(lines: seq<string>, row: string)
    requires row in DataLines(lines)
    ensures IsDataLine(row) && exists i :: 0 <= i < |lines| && Strip(lines[i]) == row
  {
    assert DataLines(lines) == Kept(lines[0]) + DataLines(lines[1..]);
    if row in Kept(lines[0]) {
      assert Strip(lines[0]) == row;
    } else {
      DataLinesFrom(lines[1..], row);
      var i :| 0 <= i < |lines[1..]| && Strip(lines[1..][i]) == row;
      assert lines[i + 1] == lines[1..][i];
      assert Strip(lines[i + 1]) == row;
    }
  }

  /** A row as the table holds it: stripped, a data line, with no line break. */
  predicate IsRow(row: string) {
    IsStripped(row) && IsDataLine(row) && '\n' !in row
  }

  /** The stripped form of a line without a line break, when kept, is a row. */
  lemma KeptIsRow(line: string)
    requires '\n' !in line
    ensures forall k :: 0 <= k < |Kept(line)| ==> IsRow(Kept(line)[k])
  {
    StripAvoids(line, '\n');
  }

  lemma RowsConcat(a: seq<string>, b: seq<string>)
    requires forall k :: 0 <= k < |a| ==> IsRow(a[k])
    requires forall k :: 0 <= k < |b| ==> IsRow(b[k])
    ensures forall k :: 0 <= k < |a + b| ==> IsRow((a + b)[k])
  {
    forall k | 0 <= k < |a + b| ensures IsRow((a + b)[k]) {
      if k >= |a| {
        assert (a + b)[k] == b[k - |a|];
      }
    }
  }

  /** What `parse_table_rows` keeps is stripped and a data line, and holds no line break. */
  lemma {:induction false} DataLinesAreRows(lines: seq<string>)
    requires forall i :: 0 <= i < |lines| ==> '\n' !in lines[i]
    ensures forall k :: 0 <= k < |DataLines(lines)| ==> IsRow(DataLines(lines)[k])
  {
    if lines != [] {
      DataLinesAreRows(lines[1..]);
      KeptIsRow(lines[0]);
      RowsConcat(Kept(lines[0]), DataLines(lines[1..]));
    }
  }

  /** The rows of a document's table: stripped data lines without line breaks. */
  lemma TableRowsAreRows(readme: string)
    ensures forall k :: 0 <= k < |TableRowsOf(readme)| ==> IsRow(TableRowsOf(readme)[k])
  {
    if HasMarkers(readme) {
      DataLinesAreRows(Split(RowSection(readme), '\n'));
    }
  }

  /** `f"{MARKER_START}\n{table_header}{table_body}\n{MARKER_END}"` */
  function NewSection(rows: seq<string>): string {
    MarkerStart + "\n" + TableHeader + Join(rows, '\n') + "\n" + MarkerEnd
  }

  /** The start marker ends no later than the end marker begins: the section is where the script assumes it is. */
  predicate WellFormed(readme: string) {
    HasMarkers(readme) && Find(readme, MarkerStart) + |MarkerStart| <= Find(readme, MarkerEnd)
  }

  /** A bound of a Python slice of a text of length `n`: a negative one counts from the end. */
  function PyBound(k: int, n: nat): (b: nat)
    ensures b <= n
    ensures 0 <= k <= n ==> b == k
    ensures k > n ==> b == n
    ensures -(n as int) <= k < 0 ==> b == n as int + k
    ensures k < -(n as int) ==> b == 0
  {
    if k < 0 then (if k + n < 0 then 0 else k + n)
    else if k > n then n
    else k
  }

  /**
   * The splice as `main` writes it, for every document, with the positions
   * `find` returns (-1 when a marker is missing) used as slice bounds.
   */
  function SpliceAsWritten(readme: string, rows: seq<string>): string {
    var startIdx := Find(readme, MarkerStart);
    var endIdx := Find(readme, MarkerEnd) + |MarkerEnd|;
    readme[..PyBound(startIdx, |readme|)] + NewSection(rows) + readme[PyBound(endIdx, |readme|)..]
  }

  /**
   * The splice: when the markers are found in order, the text before the
   * start marker, the new section and the text after the end marker; any
   * other document is left as it is.
   */
  function Splice(readme: string, rows: seq<string>): (r: string)
    ensures !WellFormed(readme) ==> r == readme
    ensures WellFormed(readme) ==>
      var s, e := Find(readme, MarkerStart), Find(readme, MarkerEnd) + |MarkerEnd|;
      var n := |NewSection(rows)|;
      && |r| == s + n + (|readme| - e)
      && r[..s] == readme[..s]
      && r[s..s + n] == NewSection(rows)
      && r[s + n..] == readme[e..]
  {
    if WellFormed(readme) then
      var s, e := Find(readme, MarkerStart), Find(readme, MarkerEnd) + |MarkerEnd|;
      var r := readme[..s] + NewSection(rows) + readme[e..];
      assert r[..s] == readme[..s];
      assert r[s..s + |NewSection(rows)|] == NewSection(rows);
      r
    else readme
  }

  /** Where the markers are found in order, the splice is the one `main` writes. */
  lemma SpliceAgreesWhenWellFormed(readme: string, rows: seq<string>)
    requires WellFormed(readme)
    ensures Splice(readme, rows) == SpliceAsWritten(readme, rows)
  {
  }

  /**
   * The last step of `main`: the document up to the start marker, the new
   * section, and the document after the end marker, at the positions `find`
   * reports.
   */
  method SpliceReadme(readme: string, rows: seq<string>) returns (newReadme: string)
    ensures newReadme == SpliceAsWritten(readme, rows)
    ensures WellFormed(readme) ==> newReadme == Splice(readme, rows)
  {
    var startIdx := Find(readme, MarkerStart);
    var endIdx := Find(readme, MarkerEnd) + |MarkerEnd|;
    var newSection := NewSection(rows);
    newReadme := readme[..PyBound(startIdx, |readme|)] + newSection + readme[PyBound(endIdx, |readme|)..];
    if WellFormed(readme) {
      SpliceAgreesWhenWellFormed(readme, rows);
    }
  }

  /**
   * With no markers, the splice as written keeps the document up to its last
   * character, then the new section, then the document again from index 21
   * (`-1 + len(END)`): a document of more than 21 characters is almost all
   * written twice, a shorter one only loses its last character.
   */
  lemma SpliceAsWrittenWithoutMarkers(readme: string, rows: seq<string>)
    requires Find(readme, MarkerStart) == -1 && Find(readme, MarkerEnd) == -1
    ensures |MarkerEnd| - 1 == 21
    ensures 21 <= |readme| ==>
      SpliceAsWritten(readme, rows) == readme[..|readme| - 1] + NewSection(rows) + readme[21..]
    ensures 0 < |readme| < 21 ==> SpliceAsWritten(readme, rows) == readme[..|readme| - 1] + NewSection(rows)
    ensures readme == [] ==> SpliceAsWritten(readme, rows) == NewSection(rows)
    ensures Splice(readme, rows) == readme
  {
    assert |MarkerEnd| == 22;
    var n := |readme|;
    var p, q := PyBound(-1, n), PyBound(21, n);
    assert SpliceAsWritten(readme, rows) == readme[..p] + NewSection(rows) + readme[q..];
    if n == 0 {
      assert readme[..p] == [] && readme[q..] == [];
    } else if n < 21 {
      assert p == n - 1 && q == n;
      assert readme[q..] == [];
    } else {
      assert p == n - 1 && q == 21;
    }
    assert !WellFormed(readme);
  }

  /** The shortest case: `"Intro\n"` becomes `"Intro"` followed by the new section. */
  lemma SpliceAsWrittenOfIntro(rows: seq<string>)
    ensures SpliceAsWritten("Intro\n", rows) == "Intro" + NewSection(rows)
    ensures Splice("Intro\n", rows) == "Intro\n"
  {
    FindInShorter("Intro\n", MarkerStart);
    FindInShorter("Intro\n", MarkerEnd);
    SpliceAsWrittenWithoutMarkers("Intro\n", rows);
    assert "Intro\n"[..5] == "Intro";
  }

  /**
   * With the end marker before the start marker, the splice as written keeps
   * both old markers and repeats the text between them on both sides of the
   * new section.
   */
  lemma SpliceAsWrittenWithMarkersSwapped(readme: string, rows: seq<string>)
    requires HasMarkers(readme)
    requires Find(readme, MarkerEnd) + |MarkerEnd| <= Find(readme, MarkerStart)
    ensures var s, e := Find(readme, MarkerStart), Find(readme, MarkerEnd) + |MarkerEnd|;
      SpliceAsWritten(readme, rows) == readme[..s] + NewSection(rows) + readme[e..]
      && readme[..s] == readme[..e] + readme[e..s]
      && readme[e..] == readme[e..s] + readme[s..]
    ensures Splice(readme, rows) == readme
  {
  }
}
