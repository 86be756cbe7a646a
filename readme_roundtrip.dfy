/**
 * Reading a spliced document back: the rows written into the section are
 * the rows `parse_table_rows` finds there on the next run, and the markers
 * stay where the next run looks for them.
 */
module ReadmeRoundTrip {
  import opened PyStrings
  import opened ReadmeSection

  /** A row the table can hold and give back: a stripped data line with no line break and no end marker. */
  ghost predicate CleanRow(row: string) {
    IsRow(row) && !Contains(row, MarkerEnd)
  }

  ghost predicate CleanRows(rows: seq<string>) {
    forall k :: 0 <= k < |rows| ==> CleanRow(rows[k])
  }

  /** The row section ends where the first end marker begins, so it holds none. */
  lemma RowSectionAvoidsEnd(readme: string)
    requires HasMarkers(readme)
    ensures !Contains(RowSection(readme), MarkerEnd)
  {
    var a, e := Find(readme, MarkerStart) + |MarkerStart|, Find(readme, MarkerEnd);
    var section := Slice(readme, a, e);
    SectionBeforeEndAvoids(readme, a, e);
    StripKeepsAvoiding(section, MarkerEnd);
  }

  lemma SectionBeforeEndAvoids(readme: string, a: nat, e: nat)
    requires a <= |readme| && e == Find(readme, MarkerEnd)
    ensures !Contains(Slice(readme, a, e), MarkerEnd)
  {
    if a <= e {
      BeforeFindAvoids(readme, MarkerEnd, a);
    } else {
      AvoidsWithoutFirst(Slice(readme, a, e), MarkerEnd);
    }
  }

  /** The rows kept from lines without `sub` hold no `sub`. */
  lemma DataLinesAvoid(lines: seq<string>, sub: string)
    requires forall i :: 0 <= i < |lines| ==> !Contains(lines[i], sub)
    ensures forall k :: 0 <= k < |DataLines(lines)| ==> !Contains(DataLines(lines)[k], sub)
  {
    forall k | 0 <= k < |DataLines(lines)| ensures !Contains(DataLines(lines)[k], sub) {
      var row := DataLines(lines)[k];
      DataLinesFrom(lines, row);
      var i :| 0 <= i < |lines| && Strip(lines[i]) == row;
      StripKeepsAvoiding(lines[i], sub);
    }
  }

  /** Every row `parse_table_rows` reads from any document can be written back and read again. */
  lemma ExistingRowsClean(readme: string)
    ensures CleanRows(TableRowsOf(readme))
  {
    TableRowsAreRows(readme);
    if HasMarkers(readme) {
      var lines := Split(RowSection(readme), '\n');
      RowSectionAvoidsEnd(readme);
      forall i | 0 <= i < |lines| ensures !Contains(lines[i], MarkerEnd) {
        if Contains(lines[i], MarkerEnd) {
          ContainsOfPart(lines, '\n', i, MarkerEnd);
        }
      }
      DataLinesAvoid(lines, MarkerEnd);
    }
  }

  /** The new section between its markers: header, separator and rows, framed by line breaks. */
  function SectionBody(rows: seq<string>): string {
    "\n" + TableHeader + Join(rows, '\n') + "\n"
  }

  /** The new section up to its table body: start marker, line break, header and separator. */
  function SectionHead(): string {
    MarkerStart + "\n" + TableHeader
  }

  lemma SectionHeadHasOneOpening()
    ensures |SectionHead()| == |MarkerStart| + 1 + |TableHeader|
    ensures forall i :: 1 <= i < |SectionHead()| ==> SectionHead()[i] != '<'
  {
  }

  lemma SectionPieces(a: string, h: string, b: string, z: string)
    ensures var x := a + "\n" + h + b + "\n" + z;
      && x[..|a|] == a
      && x[|x| - |z|..] == z
      && x[|a|..|x| - |z|] == "\n" + h + b + "\n"
  {
    var x := a + "\n" + h + b + "\n" + z;
    assert x == a + ("\n" + h + b + "\n") + z;
  }

  lemma NewSectionParts(rows: seq<string>)
    ensures NewSection(rows) == (SectionHead() + Join(rows, '\n')) + ['\n'] + MarkerEnd
    ensures NewSection(rows)[..|MarkerStart|] == MarkerStart
    ensures NewSection(rows)[|NewSection(rows)| - |MarkerEnd|..] == MarkerEnd
    ensures NewSection(rows)[|MarkerStart|..|NewSection(rows)| - |MarkerEnd|] == "\n" + TableHeader + Join(rows, '\n') + "\n"
  {
    SectionPieces(MarkerStart, TableHeader, Join(rows, '\n'), MarkerEnd);
  }

  /** The end marker occurs in the new section only at its very end (or at index 0, which it does not). */
  lemma NoEarlyEndMarker(rows: seq<string>, m: nat)
    requires forall k :: 0 <= k < |rows| ==> !Contains(rows[k], MarkerEnd)
    requires 1 <= m < |NewSection(rows)| - |MarkerEnd|
    ensures !OccursAt(NewSection(rows), MarkerEnd, m)
  {
    var head, body := SectionHead(), Join(rows, '\n');
    NewSectionParts(rows);
    SectionHeadHasOneOpening();
    if OccursAt(NewSection(rows), MarkerEnd, m) {
      OccurrenceChar(NewSection(rows), MarkerEnd, m, 0);
      OccurrenceAroundChar(head + body, '\n', MarkerEnd, MarkerEnd, m);
      if m < |head| {
        assert false;
      } else {
        assert (head + body)[m..m + |MarkerEnd|] == body[m - |head|..m - |head| + |MarkerEnd|];
        JoinAvoids(rows, '\n', MarkerEnd);
        assert rows != [];
        assert OccursAt(body, MarkerEnd, m - |head|);
        assert false;
      }
    }
  }

  lemma PrefixThenWord(x: string, y: string, s: nat, w: string)
    requires s + |w| <= |x| && s + |w| <= |y|
    requires x[..s] == y[..s] && x[s..s + |w|] == w && y[s..s + |w|] == w
    ensures x[..s + |w|] == y[..s + |w|]
  {
    assert x[..s + |w|] == x[..s] + x[s..s + |w|];
    assert y[..s + |w|] == y[..s] + y[s..s + |w|];
  }

  /** The spliced document begins with the old text before the start marker, then the start marker. */
  lemma SpliceKeepsStart(readme: string, rows: seq<string>)
    requires WellFormed(readme)
    ensures var s := Find(readme, MarkerStart);
      s + |MarkerStart| <= |Splice(readme, rows)|
      && Splice(readme, rows)[..s + |MarkerStart|] == readme[..s + |MarkerStart|]
  {
    var s := Find(readme, MarkerStart);
    var r := Splice(readme, rows);
    var ns := NewSection(rows);
    assert s + |ns| <= |r| && r[s..s + |ns|] == ns;
    NewSectionParts(rows);
    SliceWithin(r, ns, s, 0, |MarkerStart|);
    assert ns[0..|MarkerStart|] == MarkerStart;
    PrefixThenWord(r, readme, s, MarkerStart);
  }

  /** The next run finds the start marker where the old one was. */
  lemma SpliceStartMarker(readme: string, rows: seq<string>)
    requires WellFormed(readme)
    ensures Find(Splice(readme, rows), MarkerStart) == Find(readme, MarkerStart)
  {
    SpliceKeepsStart(readme, rows);
    FindOnCommonPrefix(readme, Splice(readme, rows), MarkerStart);
  }

  /** Within a prefix two texts share, a text occurs in one exactly where it occurs in the other. */
  lemma OccursInCommonPrefix(x: string, y: string, n: nat, j: nat, w: string)
    requires n <= |x| && n <= |y| && x[..n] == y[..n] && j + |w| <= n
    ensures OccursAt(x, w, j) <==> OccursAt(y, w, j)
  {
    assert x[j..j + |w|] == x[..n][j..j + |w|];
    assert y[j..j + |w|] == y[..n][j..j + |w|];
  }

  /** Before the new section, the end marker does not occur: it did not occur there in the old document. */
  lemma NoEndMarkerBeforeSection(readme: string, rows: seq<string>, j: nat)
    requires WellFormed(readme)
    requires j + |MarkerEnd| <= Find(readme, MarkerStart) + |MarkerStart|
    ensures !OccursAt(Splice(readme, rows), MarkerEnd, j)
  {
    SpliceKeepsStart(readme, rows);
    assert !OccursAt(readme, MarkerEnd, j);
    OccursInCommonPrefix(readme, Splice(readme, rows), Find(readme, MarkerStart) + |MarkerStart|, j, MarkerEnd);
  }

  /** An occurrence inside a stretch of text equal to `ns` is an occurrence in `ns`. */
  lemma OccursWithin(r: string, ns: string, s: nat, j: nat, w: string)
    requires s <= j && j + |w| <= s + |ns| <= |r| && r[s..s + |ns|] == ns
    ensures OccursAt(r, w, j) <==> OccursAt(ns, w, j - s)
  {
    SliceWithin(r, ns, s, j - s, j - s + |w|);
  }

  /** A slice of a stretch of text equal to `ns` is the same slice of `ns`. */
  lemma SliceWithin(r: string, ns: string, s: nat, a: nat, b: nat)
    requires a <= b <= |ns| && s + |ns| <= |r| && r[s..s + |ns|] == ns
    ensures r[s + a..s + b] == ns[a..b]
  {
    forall i | 0 <= i < b - a ensures r[s + a..s + b][i] == ns[a..b][i] {
      assert r[s..s + |ns|][a + i] == r[s + a + i];
    }
  }

  /** Inside the new section, the end marker occurs only at its end. */
  lemma NoEndMarkerInSection(readme: string, rows: seq<string>, j: nat)
    requires WellFormed(readme)
    requires forall k :: 0 <= k < |rows| ==> !Contains(rows[k], MarkerEnd)
    requires Find(readme, MarkerStart) + |MarkerStart| < j + |MarkerEnd|
    requires j < Find(readme, MarkerStart) + |NewSection(rows)| - |MarkerEnd|
    ensures !OccursAt(Splice(readme, rows), MarkerEnd, j)
  {
    var s := Find(readme, MarkerStart);
    var r, ns := Splice(readme, rows), NewSection(rows);
    assert s + |ns| <= |r| && r[s..s + |ns|] == ns;
    NoEarlyEndMarker(rows, j - s);
    OccursWithin(r, ns, s, j, MarkerEnd);
  }

  /** The next run finds the end marker at the end of the new section. */
  lemma SpliceEndMarker(readme: string, rows: seq<string>)
    requires WellFormed(readme)
    requires forall k :: 0 <= k < |rows| ==> !Contains(rows[k], MarkerEnd)
    ensures Find(Splice(readme, rows), MarkerEnd) == Find(readme, MarkerStart) + |NewSection(rows)| - |MarkerEnd|
  {
    var s := Find(readme, MarkerStart);
    var r, ns := Splice(readme, rows), NewSection(rows);
    var q := s + |ns| - |MarkerEnd|;
    NewSectionParts(rows);
    assert r[q..q + |MarkerEnd|] == MarkerEnd by {
      assert r[s..s + |ns|][|ns| - |MarkerEnd|..] == r[q..q + |MarkerEnd|];
    }
    forall j: nat | j < q ensures !OccursAt(r, MarkerEnd, j) {
      if j + |MarkerEnd| <= s + |MarkerStart| {
        NoEndMarkerBeforeSection(readme, rows, j);
      } else {
        NoEndMarkerInSection(readme, rows, j);
      }
    }
    FindFromIs(r, MarkerEnd, 0, q);
  }

  /** The joined rows end with the last character of the last row. */
  lemma {:induction false} JoinEndsWithLastRow(rows: seq<string>)
    requires |rows| > 0 && rows[|rows| - 1] != []
    ensures var body := Join(rows, '\n');
      body != [] && body[|body| - 1] == rows[|rows| - 1][|rows[|rows| - 1]| - 1]
  {
    if |rows| > 1 {
      JoinEndsWithLastRow(rows[1..]);
    }
  }

  /** The stripped section text `parse_table_rows` splits: header, separator and, if any, the rows. */
  function TableText(rows: seq<string>): string {
    if rows == [] then HeaderLine + "\n" + SeparatorLine
    else HeaderLine + "\n" + SeparatorLine + "\n" + Join(rows, '\n')
  }

  lemma StripFramedBlock(h1: string, h2: string, body: string)
    requires h1 != [] && !IsSpace(h1[0]) && h2 != [] && !IsSpace(h2[|h2| - 1])
    requires body != [] ==> !IsSpace(body[|body| - 1])
    ensures Strip("\n" + (h1 + "\n" + h2 + "\n") + body + "\n") ==
      if body == [] then h1 + "\n" + h2 else h1 + "\n" + h2 + "\n" + body
  {
    var t := if body == [] then h1 + "\n" + h2 else h1 + "\n" + h2 + "\n" + body;
    assert t[0] == h1[0];
    assert IsStripped(t);
    if body == [] {
      assert "\n" + (h1 + "\n" + h2 + "\n") + body + "\n" == "\n" + (h1 + "\n" + h2) + "\n" + "\n";
      assert "\n" + (h1 + "\n" + h2) + "\n" + "\n" == "\n" + t + "\n\n";
      StripBetweenSpaces("\n", t, "\n\n");
    } else {
      assert "\n" + (h1 + "\n" + h2 + "\n") + body + "\n" == "\n" + t + "\n";
      StripBetweenSpaces("\n", t, "\n");
    }
  }

  lemma StripOfTableSection(rows: seq<string>)
    requires CleanRows(rows)
    ensures Strip(SectionBody(rows)) == TableText(rows)
  {
    var body := Join(rows, '\n');
    if rows != [] {
      var last := rows[|rows| - 1];
      assert CleanRow(last);
      assert last != [];
      JoinEndsWithLastRow(rows);
    }
    StripFramedBlock(HeaderLine, SeparatorLine, body);
  }

  lemma HeaderHasNoBreak()
    ensures '\n' !in HeaderLine && '\n' !in SeparatorLine
  {
  }

  lemma SplitAfterHeader(body: string)
    ensures Split(HeaderLine + ['\n'] + (SeparatorLine + ['\n'] + body), '\n') == [HeaderLine, SeparatorLine] + Split(body, '\n')
  {
    HeaderHasNoBreak();
    SplitConcat(SeparatorLine, body, '\n');
    SplitConcat(HeaderLine, SeparatorLine + ['\n'] + body, '\n');
  }

  lemma SplitHeaderOnly()
    ensures Split(HeaderLine + "\n" + SeparatorLine, '\n') == [HeaderLine, SeparatorLine]
  {
    HeaderHasNoBreak();
    SplitNoSep(SeparatorLine, '\n');
    SplitConcat(HeaderLine, SeparatorLine, '\n');
    assert HeaderLine + "\n" + SeparatorLine == HeaderLine + ['\n'] + SeparatorLine;
  }

  /** The section text splits into the header, the separator and the rows. */
  lemma SplitTableText(rows: seq<string>)
    requires forall k :: 0 <= k < |rows| ==> '\n' !in rows[k]
    ensures Split(TableText(rows), '\n') == [HeaderLine, SeparatorLine] + rows
  {
    if rows == [] {
      SplitHeaderOnly();
    } else {
      var body := Join(rows, '\n');
      SplitJoin(rows, '\n');
      SplitAfterHeader(body);
      assert TableText(rows) == HeaderLine + ['\n'] + (SeparatorLine + ['\n'] + body);
    }
  }

  lemma {:induction false} DataLinesConcat(xs: seq<string>, ys: seq<string>)
    ensures DataLines(xs + ys) == DataLines(xs) + DataLines(ys)
  {
    if xs == [] {
      assert xs + ys == ys;
    } else {
      assert (xs + ys)[1..] == xs[1..] + ys;
      DataLinesConcat(xs[1..], ys);
    }
  }

  /** A row is kept as it is. */
  lemma KeptRow(row: string)
    requires IsRow(row)
    ensures Kept(row) == [row]
  {
  }

  /** Lines that are each kept as they are make up the data lines. */
  lemma {:induction false} DataLinesOfRows(rows: seq<string>)
    requires forall k :: 0 <= k < |rows| ==> Kept(rows[k]) == [rows[k]]
    ensures DataLines(rows) == rows
  {
    if rows != [] {
      var rest := rows[1..];
      forall k | 0 <= k < |rest| ensures Kept(rest[k]) == [rest[k]] {
        assert rest[k] == rows[k + 1];
      }
      DataLinesOfRows(rest);
      assert rows == [rows[0]] + rest;
    }
  }

  /** A stripped line that is not a data line contributes nothing. */
  lemma KeptNothing(line: string)
    requires IsStripped(line) && !IsDataLine(line)
    ensures Kept(line) == []
  {
  }

  lemma DataLinesOfHeader()
    ensures DataLines([HeaderLine, SeparatorLine]) == []
  {
    assert HeaderLine[..6] == "| Name";
    KeptNothing(HeaderLine);
    assert SeparatorLine[..4] == "|---";
    KeptNothing(SeparatorLine);
    assert [HeaderLine, SeparatorLine][1..] == [SeparatorLine];
    assert [SeparatorLine][1..] == [];
    assert DataLines([SeparatorLine]) == Kept(SeparatorLine) + DataLines([]);
    assert DataLines([HeaderLine, SeparatorLine]) == Kept(HeaderLine) + DataLines([SeparatorLine]);
  }

  /** The spliced document holds the new section where the start marker was. */
  lemma SpliceHasSection(readme: string, rows: seq<string>)
    requires WellFormed(readme)
    ensures var s, ns := Find(readme, MarkerStart), NewSection(rows);
      s + |ns| <= |Splice(readme, rows)| && Splice(readme, rows)[s..s + |ns|] == ns
  {
  }

  lemma NewSectionMiddle(rows: seq<string>)
    ensures |MarkerStart| + |MarkerEnd| <= |NewSection(rows)|
    ensures NewSection(rows)[|MarkerStart|..|NewSection(rows)| - |MarkerEnd|] == SectionBody(rows)
  {
    NewSectionParts(rows);
  }

  /** Wherever a text holds the new section, its markers frame the section body. */
  lemma SectionInside(r: string, s: nat, rows: seq<string>)
    requires s + |NewSection(rows)| <= |r| && r[s..s + |NewSection(rows)|] == NewSection(rows)
    ensures |MarkerStart| + |MarkerEnd| <= |NewSection(rows)|
    ensures r[s + |MarkerStart|..s + |NewSection(rows)| - |MarkerEnd|] == SectionBody(rows)
  {
    var ns := NewSection(rows);
    NewSectionMiddle(rows);
    SliceWithin(r, ns, s, |MarkerStart|, |ns| - |MarkerEnd|);
  }

  /** Between its markers, a spliced document holds the header and the joined rows, framed by line breaks. */
  lemma SplicedInner(readme: string, rows: seq<string>)
    requires WellFormed(readme)
    ensures var s, ns := Find(readme, MarkerStart), NewSection(rows);
      Splice(readme, rows)[s + |MarkerStart|..s + |ns| - |MarkerEnd|] == SectionBody(rows)
  {
    SpliceHasSection(readme, rows);
    SectionInside(Splice(readme, rows), Find(readme, MarkerStart), rows);
  }

  /** The next run finds both markers of a spliced document, in order. */
  lemma SplicedMarkers(readme: string, rows: seq<string>)
    requires WellFormed(readme) && CleanRows(rows)
    ensures var s, ns := Find(readme, MarkerStart), NewSection(rows);
      && Find(Splice(readme, rows), MarkerStart) == s
      && Find(Splice(readme, rows), MarkerEnd) == s + |ns| - |MarkerEnd|
      && WellFormed(Splice(readme, rows))
  {
    forall k | 0 <= k < |rows| ensures !Contains(rows[k], MarkerEnd) {
      assert CleanRow(rows[k]);
    }
    SpliceStartMarker(readme, rows);
    SpliceEndMarker(readme, rows);
  }

  /** The section a spliced document yields to `parse_table_rows` is the header, the separator and the rows. */
  lemma RowSectionOfSplice(readme: string, rows: seq<string>)
    requires WellFormed(readme) && CleanRows(rows)
    ensures WellFormed(Splice(readme, rows))
    ensures RowSection(Splice(readme, rows)) == TableText(rows)
  {
    SplicedMarkers(readme, rows);
    SplicedInner(readme, rows);
    StripOfTableSection(rows);
  }

  /**
   * Splicing clean rows into a document whose markers are in order gives a
   * document whose markers are again in order, and whose table rows, as the
   * next run parses them, are exactly those rows.
   */
  lemma SpliceReadsBack(readme: string, rows: seq<string>)
    requires WellFormed(readme) && CleanRows(rows)
    ensures WellFormed(Splice(readme, rows))
    ensures TableRowsOf(Splice(readme, rows)) == rows
  {
    forall k | 0 <= k < |rows| ensures '\n' !in rows[k] {
      assert CleanRow(rows[k]);
    }
    forall k | 0 <= k < |rows| ensures Kept(rows[k]) == [rows[k]] {
      assert CleanRow(rows[k]);
      KeptRow(rows[k]);
    }
    RowSectionOfSplice(readme, rows);
    SplitTableText(rows);
    DataLinesConcat([HeaderLine, SeparatorLine], rows);
    DataLinesOfHeader();
    DataLinesOfRows(rows);
  }
}
