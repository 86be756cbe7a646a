/**
 * Which rows the script can write into the section and read back on the
 * next run: every row it read from the document, every row it refreshed,
 * and every row it built for a repository whose name, address and
 * description hold no line break, no carriage return and no end marker.
 *
 * The script reads the document in text mode, where a carriage return,
 * alone or before a line break, is read as a line break. A document read
 * that way holds no carriage return, and the one written from it holds
 * none either, so the next run reads back the very text written.
 */
module RowSafety {
  import opened PyStrings
  import opened Repos
  import opened TableRows
  import opened ReadmeSection
  import opened ReadmeRoundTrip

  /** A text that can stand inside one line of the section, and reads back as itself in text mode. */
  ghost predicate SafeText(t: string) {
    '\n' !in t && '\r' !in t && !Contains(t, MarkerEnd)
  }

  /** Rows without a carriage return. */
  ghost predicate NoReturnRows(rows: seq<string>) {
    forall k :: 0 <= k < |rows| ==> '\r' !in rows[k]
  }

  /** A character occurs in a text exactly when the one-character text of it does. */
  lemma CharContains(s: string, c: char)
    ensures c in s <==> Contains(s, [c])
  {
    if c in s {
      var i :| 0 <= i < |s| && s[i] == c;
      assert OccursAt(s, [c], i);
    }
    if Contains(s, [c]) {
      var m: nat :| OccursAt(s, [c], m);
      assert s[m] == c;
    }
  }

  /** A repository whose built row can be read back: name, address and description text are safe. */
  ghost predicate SafeRepo(r: Repo) {
    SafeText(r.name) && SafeText(r.htmlUrl) && SafeText(SanitizeDescription(r.description))
  }

  /** A stars cell holds only spaces, digits and a sign. */
  lemma StarsCellChars(n: int)
    ensures '\n' !in StarsCell(n) && '\r' !in StarsCell(n) && '<' !in StarsCell(n)
  {
    var s := IntToString(n);
    assert '\n' !in s && '\r' !in s && '<' !in s by {
      forall i | 0 <= i < |s| ensures s[i] != '\n' && s[i] != '\r' && s[i] != '<' {
        assert IsDigit(s[i]) || s[i] == '-';
      }
    }
  }

  lemma StarsCellAvoidsEnd(n: int)
    ensures !Contains(StarsCell(n), MarkerEnd)
  {
    StarsCellChars(n);
    AvoidsWithoutFirst(StarsCell(n), MarkerEnd);
  }

  /** The first four pieces of a joined text, then the rest. */
  lemma JoinFourHeads(parts: seq<string>, sep: char)
    requires |parts| >= 5
    ensures Join(parts, sep) == parts[0] + [sep] + parts[1] + [sep] + parts[2] + [sep] + parts[3] + [sep] + Join(parts[4..], sep)
  {
    var j4 := Join(parts[4..], sep);
    assert parts[3..][1..] == parts[4..];
    var j3 := Join(parts[3..], sep);
    assert j3 == parts[3] + [sep] + j4;
    assert parts[2..][1..] == parts[3..];
    var j2 := Join(parts[2..], sep);
    assert j2 == parts[2] + [sep] + j3;
    assert parts[1..][1..] == parts[2..];
    var j1 := Join(parts[1..], sep);
    assert j1 == parts[1] + [sep] + j2;
    assert Join(parts, sep) == parts[0] + [sep] + j1;
  }

  /** A row splits as the text up to the stars cell, the stars cell, and the text after it. */
  lemma AroundStarsCell(parts: seq<string>, sep: char, c: string)
    requires |parts| >= 5
    ensures var h := parts[0] + [sep] + parts[1] + [sep] + parts[2] + [sep];
      var t := [sep] + Join(parts[4..], sep);
      Join(parts, sep) == h + parts[3] + t && Join(parts[3 := c], sep) == h + c + t
  {
    var q := parts[3 := c];
    JoinFourHeads(parts, sep);
    JoinFourHeads(q, sep);
    assert q[4..] == parts[4..];
  }

  /** Texts that share a head ending in `|` at index 2 or later agree on starting with `p`, when `p` has `|` only before index 2. */
  lemma SharedHead(h: string, u: string, v: string, p: string)
    requires |h| >= 3 && h[|h| - 1] == '|'
    requires forall i :: 2 <= i < |p| ==> p[i] != '|'
    ensures StartsWith(h + u, p) <==> StartsWith(h + v, p)
  {
    if |p| <= |h| {
      assert (h + u)[..|p|] == h[..|p|] == (h + v)[..|p|];
    } else {
      assert (h + u)[|h| - 1] == '|' == (h + v)[|h| - 1];
    }
  }

  /** Replacing the middle of a row, between a head ending in `|` and a non-empty tail, by a text without line breaks leaves a row. */
  lemma SwapCellKeepsRow(h: string, x: string, c: string, t: string)
    requires IsRow(h + x + t) && |h| >= 3 && h[|h| - 1] == '|' && t != [] && '\n' !in c
    ensures IsRow(h + c + t)
  {
    var row, r := h + x + t, h + c + t;
    assert row == h + (x + t) && r == h + (c + t);
    assert r[0] == h[0] == row[0] && r[|r| - 1] == t[|t| - 1] == row[|row| - 1];
    SharedHead(h, x + t, c + t, "|");
    SharedHead(h, x + t, c + t, "| Name");
    SharedHead(h, x + t, c + t, "|---");
  }

  /** Replacing the stars cell by one without `sub` adds no `sub`, when `sub` holds no `|`. */
  lemma SwapCellAvoids(parts: seq<string>, c: string, sub: string)
    requires 3 < |parts| && '|' !in sub && !Contains(Join(parts, '|'), sub) && !Contains(c, sub)
    ensures !Contains(Join(parts[3 := c], '|'), sub)
  {
    var q := parts[3 := c];
    forall k | 0 <= k < |q| ensures !Contains(q[k], sub) {
      if k != 3 && Contains(parts[k], sub) {
        ContainsOfPart(parts, '|', k, sub);
      }
    }
    JoinAvoids(q, '|', sub);
  }

  /** `update_row_stars` keeps a row readable: only its stars cell changes, to ` n `. */
  lemma RefreshedRowClean(row: string, reposByUrl: map<string, Repo>)
    requires CleanRow(row)
    ensures CleanRow(RefreshedRow(row, reposByUrl))
  {
    if Refreshable(row, reposByUrl) {
      var parts := Split(row, '|');
      var n := reposByUrl[RowUrl(row).value].stars;
      var c := StarsCell(n);
      var h := parts[0] + ['|'] + parts[1] + ['|'] + parts[2] + ['|'];
      var t := ['|'] + Join(parts[4..], '|');
      AroundStarsCell(parts, '|', c);
      StarsCellChars(n);
      SwapCellKeepsRow(h, parts[3], c, t);
      StarsCellAvoidsEnd(n);
      assert '|' !in MarkerEnd;
      SwapCellAvoids(parts, c, MarkerEnd);
    }
  }

  /** ` [name](url) ` holds no end marker when neither the name nor the address does. */
  lemma LinkCellAvoidsEnd(name: string, url: string)
    requires !Contains(name, MarkerEnd) && !Contains(url, MarkerEnd)
    ensures !Contains(LinkCell(name, url), MarkerEnd)
  {
    AvoidsWithoutFirst(" ", MarkerEnd);
    AvoidsWithoutFirst("", MarkerEnd);
    var x3 := url + [')'] + " ";
    AvoidsAroundChar(url, ')', " ", MarkerEnd);
    var x2 := [] + ['('] + x3;
    AvoidsAroundChar([], '(', x3, MarkerEnd);
    var x1 := name + [']'] + x2;
    AvoidsAroundChar(name, ']', x2, MarkerEnd);
    AvoidsAroundChar(" ", '[', x1, MarkerEnd);
    assert LinkCell(name, url) == " " + ['['] + x1;
  }

  /** Three cells between bars, the first starting with ` [`, make a row when no cell holds a line break. */
  lemma CellsMakeRow(a: string, b: string, c: string)
    requires |a| >= 2 && a[0] == ' ' && a[1] == '['
    requires '\n' !in a && '\n' !in b && '\n' !in c
    ensures IsRow("|" + a + "|" + b + "|" + c + "|")
  {
    var row := "|" + a + "|" + b + "|" + c + "|";
    assert row == "|" + (a + "|" + b + "|" + c + "|");
    assert row[1] == ' ' && row[2] == '[';
  }

  /** Three cells between bars hold no end marker when none of them does. */
  lemma CellsAvoidEnd(a: string, b: string, c: string)
    requires !Contains(a, MarkerEnd) && !Contains(b, MarkerEnd) && !Contains(c, MarkerEnd)
    ensures !Contains("|" + a + "|" + b + "|" + c + "|", MarkerEnd)
  {
    AvoidsWithoutFirst("", MarkerEnd);
    var cells := ["", a, b, c, ""];
    BarsJoin(a, b, c);
    JoinAvoids(cells, '|', MarkerEnd);
  }

  lemma LinkCellShape(name: string, url: string)
    requires '\n' !in name && '\n' !in url
    ensures var link := LinkCell(name, url); |link| >= 2 && link[0] == ' ' && link[1] == '[' && '\n' !in link
  {
    assert LinkCell(name, url) == " [" + (name + "](" + url + ") ");
  }

  lemma DescriptionCellHasNoBreak(d: string)
    requires '\n' !in d
    ensures '\n' !in " " + d + " "
  {
  }

  /** A built row is a row when its texts hold no line break. */
  lemma BuiltRowIsRow(repo: Repo)
    requires SafeRepo(repo)
    ensures IsRow(BuildTableRow(repo))
  {
    LinkCellShape(repo.name, repo.htmlUrl);
    DescriptionCellHasNoBreak(SanitizeDescription(repo.description));
    StarsCellChars(repo.stars);
    CellsMakeRow(LinkCell(repo.name, repo.htmlUrl), DescriptionCell(repo.description), StarsCell(repo.stars));
  }

  /** A built row holds no end marker when its texts hold none. */
  lemma BuiltRowAvoidsEnd(repo: Repo)
    requires SafeRepo(repo)
    ensures !Contains(BuildTableRow(repo), MarkerEnd)
  {
    LinkCellAvoidsEnd(repo.name, repo.htmlUrl);
    AvoidsPadded(SanitizeDescription(repo.description), MarkerEnd);
    StarsCellAvoidsEnd(repo.stars);
    CellsAvoidEnd(LinkCell(repo.name, repo.htmlUrl), DescriptionCell(repo.description), StarsCell(repo.stars));
  }

  /** `build_table_row` gives a row that can be read back when the repository is safe. */
  lemma BuiltRowClean(repo: Repo)
    requires SafeRepo(repo)
    ensures CleanRow(BuildTableRow(repo))
  {
    BuiltRowIsRow(repo);
    BuiltRowAvoidsEnd(repo);
  }

  /** Every row read from a document without a carriage return holds none. */
  lemma ExistingRowsHaveNoReturn(readme: string)
    requires '\r' !in readme
    ensures NoReturnRows(TableRowsOf(readme))
  {
    if HasMarkers(readme) {
      var a, e := Find(readme, MarkerStart) + |MarkerStart|, Find(readme, MarkerEnd);
      var section := Slice(readme, a, e);
      CharContains(readme, '\r');
      if a <= e {
        SliceAvoids(readme, a, e, ['\r']);
      } else {
        AvoidsWithoutFirst(section, ['\r']);
      }
      StripKeepsAvoiding(section, ['\r']);
      var lines := Split(RowSection(readme), '\n');
      forall i | 0 <= i < |lines| ensures !Contains(lines[i], ['\r']) {
        if Contains(lines[i], ['\r']) {
          ContainsOfPart(lines, '\n', i, ['\r']);
        }
      }
      DataLinesAvoid(lines, ['\r']);
      var rows := TableRowsOf(readme);
      forall k | 0 <= k < |rows| ensures '\r' !in rows[k] {
        CharContains(rows[k], '\r');
      }
    }
  }

  /** Refreshing a row adds no carriage return: the stars cell holds none. */
  lemma RefreshedRowHasNoReturn(row: string, reposByUrl: map<string, Repo>)
    requires '\r' !in row
    ensures '\r' !in RefreshedRow(row, reposByUrl)
  {
    if Refreshable(row, reposByUrl) {
      var parts := Split(row, '|');
      var n := reposByUrl[RowUrl(row).value].stars;
      var c := StarsCell(n);
      StarsCellChars(n);
      CharContains(row, '\r');
      CharContains(c, '\r');
      SwapCellAvoids(parts, c, ['\r']);
      CharContains(Join(parts[3 := c], '|'), '\r');
    }
  }

  lemma LinkCellHasNoReturn(name: string, url: string)
    requires '\r' !in name && '\r' !in url
    ensures '\r' !in LinkCell(name, url)
  {
    NotInConcat('\r', " [", name);
    NotInConcat('\r', " [" + name, "](");
    NotInConcat('\r', " [" + name + "](", url);
    NotInConcat('\r', " [" + name + "](" + url, ") ");
  }

  /** Three cells between bars hold no carriage return when none of them does. */
  lemma CellsHaveNoReturn(a: string, b: string, c: string)
    requires '\r' !in a && '\r' !in b && '\r' !in c
    ensures '\r' !in "|" + a + "|" + b + "|" + c + "|"
  {
    NotInConcat('\r', "|", a);
    NotInConcat('\r', "|" + a, "|");
    NotInConcat('\r', "|" + a + "|", b);
    NotInConcat('\r', "|" + a + "|" + b, "|");
    NotInConcat('\r', "|" + a + "|" + b + "|", c);
    NotInConcat('\r', "|" + a + "|" + b + "|" + c, "|");
  }

  /** A row built for a safe repository holds no carriage return. */
  lemma BuiltRowHasNoReturn(repo: Repo)
    requires SafeRepo(repo)
    ensures '\r' !in BuildTableRow(repo)
  {
    var d := SanitizeDescription(repo.description);
    StarsCellChars(repo.stars);
    LinkCellHasNoReturn(repo.name, repo.htmlUrl);
    NotInConcat('\r', " ", d);
    NotInConcat('\r', " " + d, " ");
    CellsHaveNoReturn(LinkCell(repo.name, repo.htmlUrl), DescriptionCell(repo.description), StarsCell(repo.stars));
  }

  /** The new section holds no carriage return when its rows hold none. */
  lemma SectionHasNoReturn(rows: seq<string>)
    requires NoReturnRows(rows)
    ensures '\r' !in NewSection(rows)
  {
    var body := Join(rows, '\n');
    if rows != [] {
      forall k | 0 <= k < |rows| ensures !Contains(rows[k], ['\r']) {
        CharContains(rows[k], '\r');
      }
      JoinAvoids(rows, '\n', ['\r']);
      CharContains(body, '\r');
    }
    assert '\r' !in MarkerStart && '\r' !in TableHeader && '\r' !in MarkerEnd;
  }

  /**
   * The document as the script writes it holds no carriage return when the
   * document read and the rows hold none, so reading it in text mode gives
   * back the same text.
   */
  lemma SplicedHasNoReturn(readme: string, rows: seq<string>)
    requires '\r' !in readme && NoReturnRows(rows)
    ensures '\r' !in SpliceAsWritten(readme, rows)
  {
    SectionHasNoReturn(rows);
    var p := PyBound(Find(readme, MarkerStart), |readme|);
    var q := PyBound(Find(readme, MarkerEnd) + |MarkerEnd|, |readme|);
    assert '\r' !in readme[..p] && '\r' !in readme[q..];
  }
}
