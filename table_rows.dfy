/** The repository record the search API returns, cut down to the fields the script reads. */
module Repos {
  import opened Options
  import opened PyStrings
  import opened GithubUrls

  datatype Repo = Repo(
    fullName: string,              // "full_name", as "owner/name"
    name: string,                  // "name"
    htmlUrl: string,               // "html_url"
    description: Option<string>,   // "description", which the API may give as null
    stars: int,                    // "stargazers_count"
    fork: bool,                    // "fork"
    archived: bool)                // "archived"

  /** The key `all_repos` is indexed by: `full_name.lower()`. */
  function NameKey(r: Repo): string {
    Lower(r.fullName)
  }

  /** The key `repos_by_url` is indexed by: `html_url.lower().rstrip("/")`. */
  function UrlKey(r: Repo): string {
    Canonical(r.htmlUrl)
  }

  /** The sort key of `new_repos`. */
  function Stars(r: Repo): int {
    r.stars
  }
}

/**
 * One line of the curated table, `| [name](url) | description | stars |`:
 * how a new line is built, how the stars cell is read back for sorting, and
 * how an existing line gets a fresh star count.
 */
module TableRows {
  import opened Options
  import opened PyStrings
  import opened GithubUrls
  import opened Repos

  /** The longest description a built row carries. */
  const MaxDescription: nat := 100

  /** `(description or "").replace("|", "-").strip()`: stripped, and without `|`. */
  function DescriptionText(description: Option<string>): (t: string)
    ensures '|' !in t && IsStripped(t)
  {
    var replaced := ReplaceChar(match description case Some(d) => d case None => "", '|', '-');
    var t := Strip(replaced);
    StripAvoids(replaced, '|');
    t
  }

  /**
   * A text cut to 100 characters: one that fits stays as it is, a longer one
   * keeps its first 97 characters and gets `...`.
   */
  function Truncate(t: string): (d: string)
    requires '|' !in t && IsStripped(t)
    ensures '|' !in d && IsStripped(d) && |d| <= MaxDescription
    ensures |t| <= MaxDescription ==> d == t
    ensures |t| > MaxDescription ==> |d| == MaxDescription && d[..97] == t[..97] && d[97..] == "..."
  {
    if |t| > MaxDescription then
      var d := t[..97] + "...";
      assert d[0] == t[0] && d[|d| - 1] == '.';
      assert forall i :: 0 <= i < 97 ==> d[i] == t[i];
      d
    else t
  }

  /** The description cell's text in a built row: `description`, truncated. */
  function SanitizeDescription(description: Option<string>): (d: string)
    ensures '|' !in d && IsStripped(d) && |d| <= MaxDescription
  {
    Truncate(DescriptionText(description))
  }

  /** The link cell, ` [name](url) `. */
  function LinkCell(name: string, url: string): string {
    " [" + name + "](" + url + ") "
  }

  /** The description cell, ` description `. */
  function DescriptionCell(description: Option<string>): string {
    " " + SanitizeDescription(description) + " "
  }

  /** The stars cell, ` stars `. */
  function StarsCell(n: int): string {
    " " + IntToString(n) + " "
  }

  /**
   * `build_table_row(repo)`: `| [name](url) | description | stars |`, the
   * built cells joined by `|`.
   */
  function BuildTableRow(repo: Repo): (r: string)
    ensures r == Join(BuiltCells(repo), '|')
    ensures r[0] == '|' && r[|r| - 1] == '|'
  {
    var link, description, stars := LinkCell(repo.name, repo.htmlUrl), DescriptionCell(repo.description), StarsCell(repo.stars);
    BarsJoin(link, description, stars);
    "|" + link + "|" + description + "|" + stars + "|"
  }

  lemma NotInConcat(c: char, a: string, b: string)
    requires c !in a && c !in b
    ensures c !in a + b
  {
  }

  lemma LinkCellHasNoBar(name: string, url: string)
    requires '|' !in name && '|' !in url
    ensures '|' !in LinkCell(name, url)
  {
    NotInConcat('|', " [", name);
    NotInConcat('|', " [" + name, "](");
    NotInConcat('|', " [" + name + "](", url);
    NotInConcat('|', " [" + name + "](" + url, ") ");
  }

  lemma JoinFive(a: string, b: string, c: string, d: string, e: string, sep: char)
    ensures Join([a, b, c, d, e], sep) == a + [sep] + b + [sep] + c + [sep] + d + [sep] + e
  {
    var s := [sep];
    assert [d, e][1..] == [e];
    assert Join([e], sep) == e;
    var j3 := Join([d, e], sep);
    assert j3 == d + s + e;
    assert [c, d, e][1..] == [d, e];
    var j2 := Join([c, d, e], sep);
    assert j2 == c + s + j3;
    assert [b, c, d, e][1..] == [c, d, e];
    var j1 := Join([b, c, d, e], sep);
    assert j1 == b + s + j2;
    assert [a, b, c, d, e][1..] == [b, c, d, e];
    assert Join([a, b, c, d, e], sep) == a + s + j1;
    assert a + s + (b + s + (c + s + (d + s + e))) == a + s + b + s + c + s + d + s + e;
  }

  /** A line of three cells between bars splits back into them, with an empty piece at each end. */
  lemma SplitThreeCells(a: string, b: string, c: string)
    requires '|' !in a && '|' !in b && '|' !in c
    ensures Split("|" + a + "|" + b + "|" + c + "|", '|') == ["", a, b, c, ""]
  {
    SplitFive("", a, b, c, "", '|');
    BarsJoin(a, b, c);
  }

  /** Three cells between bars are the join of the cells with an empty piece at each end. */
  lemma BarsJoin(a: string, b: string, c: string)
    ensures Join(["", a, b, c, ""], '|') == "|" + a + "|" + b + "|" + c + "|"
  {
    var bar: string := ['|'];
    JoinFive("", a, b, c, "", '|');
    assert "" + bar == bar;
    assert bar + a + bar + b + bar + c + bar + "" == bar + a + bar + b + bar + c + bar;
    assert "|" == bar;
  }

  lemma SplitFive(a: string, b: string, c: string, d: string, e: string, sep: char)
    requires sep !in a && sep !in b && sep !in c && sep !in d && sep !in e
    ensures Split(Join([a, b, c, d, e], sep), sep) == [a, b, c, d, e]
  {
    var cells := [a, b, c, d, e];
    assert forall i :: 0 <= i < |cells| ==> sep !in cells[i];
    SplitJoin(cells, sep);
  }

  lemma DescriptionCellHasNoBar(description: Option<string>)
    ensures '|' !in DescriptionCell(description)
  {
    NotInConcat('|', " ", SanitizeDescription(description));
    NotInConcat('|', " " + SanitizeDescription(description), " ");
  }

  lemma StarsCellHasNoBar(n: int)
    ensures '|' !in StarsCell(n)
  {
    var s := IntToString(n);
    assert '|' !in s by {
      forall i | 0 <= i < |s| ensures s[i] != '|' {
        assert IsDigit(s[i]) || s[i] == '-';
      }
    }
    NotInConcat('|', " ", s);
    NotInConcat('|', " " + s, " ");
  }

  /** The cells of a built row, between the `|` separators. */
  function BuiltCells(repo: Repo): seq<string> {
    ["", LinkCell(repo.name, repo.htmlUrl), DescriptionCell(repo.description), StarsCell(repo.stars), ""]
  }

  /**
   * A built row splits into five cells: empty, the link, the description,
   * the stars and empty again, provided the name and address hold no `|`.
   */
  lemma BuiltRowCells(repo: Repo)
    requires '|' !in repo.name && '|' !in repo.htmlUrl
    ensures Split(BuildTableRow(repo), '|') == BuiltCells(repo)
  {
    LinkCellHasNoBar(repo.name, repo.htmlUrl);
    DescriptionCellHasNoBar(repo.description);
    StarsCellHasNoBar(repo.stars);
    SplitThreeCells(LinkCell(repo.name, repo.htmlUrl), DescriptionCell(repo.description), StarsCell(repo.stars));
  }

  /** The text `extract_stars_from_row` parses: the fourth cell, stripped, without commas. */
  function StarsText(parts: seq<string>): string
    requires |parts| >= 4
  {
    RemoveChar(Strip(parts[3]), ',')
  }

  /**
   * `extract_stars_from_row(row)`: never fails. A row with fewer than four
   * cells, or whose stars cell is not a number, counts as 0; any other result
   * is the number in the stars cell.
   */
  function ExtractStars(row: string): (n: int)
    ensures |Split(row, '|')| < 4 ==> n == 0
    ensures |Split(row, '|')| >= 4 && ParseInt(StarsText(Split(row, '|'))).None? ==> n == 0
    ensures |Split(row, '|')| >= 4 && ParseInt(StarsText(Split(row, '|'))).Some? ==>
      n == ParseInt(StarsText(Split(row, '|'))).value
    ensures n != 0 ==> |Split(row, '|')| >= 4 && ParseInt(StarsText(Split(row, '|'))) == Some(n)
  {
    var parts := Split(row, '|');
    if |parts| >= 4 then
      match ParseInt(StarsText(parts))
      case Some(n) => n
      case None => 0
    else 0
  }

  /** A stars cell written by the script reads back as the number written into it. */
  lemma StarsCellReadsBack(row: string, n: int)
    requires |Split(row, '|')| >= 4 && Split(row, '|')[3] == StarsCell(n)
    ensures ExtractStars(row) == n
  {
    StarsCellText(n);
    ParseIntToString(n);
    assert StarsText(Split(row, '|')) == IntToString(n);
  }

  /** The text read from a stars cell ` n `: `str(n)` again. */
  lemma StarsCellText(n: int)
    ensures RemoveChar(Strip(StarsCell(n)), ',') == IntToString(n)
  {
    var digits := IntToString(n);
    IntToStringIsStripped(n);
    StripBetweenSpaces(" ", digits, " ");
    assert ',' !in digits by {
      forall i | 0 <= i < |digits| ensures digits[i] != ',' {
        assert IsDigit(digits[i]) || digits[i] == '-';
      }
    }
  }

  /** Digits only: `int()` reads them as their decimal value. */
  lemma ParseDigits(d: string)
    requires d != [] && AllDigits(d)
    ensures ParseInt(d) == Some(DigitsValue(d))
  {
    assert IsDigit(d[0]) && IsDigit(d[|d| - 1]);
    assert IsStripped(d);
    assert IsDigitGroups(d);
    assert '_' !in d;
  }

  /** The text read from a cell ` a,b ` of digit runs `a` and `b`: the digits, without the comma. */
  lemma CommaCellText(a: string, b: string)
    requires a != [] && b != [] && AllDigits(a) && AllDigits(b)
    ensures RemoveChar(Strip(" " + (a + "," + b) + " "), ',') == a + b
  {
    assert "," == [','];
    DigitRunsAroundComma(a, b);
    StripBetweenSpaces(" ", a + "," + b, " ");
    RemoveCharBetween(a, ',', b);
  }

  lemma DigitRunsAroundComma(a: string, b: string)
    requires a != [] && b != [] && AllDigits(a) && AllDigits(b)
    ensures IsStripped(a + [','] + b) && ',' !in a && ',' !in b
  {
    var t := a + [','] + b;
    assert t[0] == a[0] && t[|t| - 1] == b[|b| - 1];
    assert IsDigit(a[0]) && IsDigit(b[|b| - 1]);
  }

  lemma AllDigitsConcat(a: string, b: string)
    requires AllDigits(a) && AllDigits(b)
    ensures AllDigits(a + b)
  {
    forall i | 0 <= i < |a + b| ensures IsDigit((a + b)[i]) {
      if i >= |a| {
        assert (a + b)[i] == b[i - |a|];
      }
    }
  }

  /**
   * A stars cell written with a thousands separator, ` 1,234 ` say, reads as
   * the digits with the comma deleted and the others kept in order.
   */
  lemma StarsCellWithComma(row: string, a: string, b: string)
    requires a != [] && b != [] && AllDigits(a) && AllDigits(b)
    requires |Split(row, '|')| >= 4 && Split(row, '|')[3] == " " + (a + "," + b) + " "
    ensures AllDigits(a + b) && ExtractStars(row) == DigitsValue(a + b)
  {
    CommaCellText(a, b);
    AllDigitsConcat(a, b);
    ParseDigits(a + b);
  }

  /**
   * A stars cell ` ,\x1c5 ` counts as 0: `strip()` stops at the comma, the
   * comma is then deleted, and `int()` does not skip the U+001C left in front
   * of the digit.
   */
  lemma StarsCellWithSeparator(row: string)
    requires |Split(row, '|')| >= 4 && Split(row, '|')[3] == " " + (",\U{1C}5") + " "
    ensures ExtractStars(row) == 0
  {
    var t := ",\U{1C}5";
    var u := "\U{1C}5";
    assert IsStripped(t) by {
      assert !IsSpace(t[0]) && !IsSpace(t[|t| - 1]);
    }
    assert AllSpace(" ");
    StripBetweenSpaces(" ", t, " ");
    assert t == [','] + u;
    RemoveCharHead(',', u);
    assert ',' !in u;
    ParseIntKeepsSeparators();
  }

  /** `extract_stars_from_row(build_table_row(repo)) == repo["stargazers_count"]` */
  lemma ExtractStarsOfBuiltRow(repo: Repo)
    requires '|' !in repo.name && '|' !in repo.htmlUrl
    ensures ExtractStars(BuildTableRow(repo)) == repo.stars
  {
    BuiltRowCells(repo);
    StarsCellReadsBack(BuildTableRow(repo), repo.stars);
  }

  /** The address `update_row_stars` looks the row up by: its first match, in canonical form. */
  function RowUrl(row: string): Option<string> {
    match Search(row)
    case Some(m) => Some(Canonical(row[m.0..m.1]))
    case None => None
  }

  /** `update_row_stars` rewrites the row: its address has fresh data and it has at least five cells. */
  predicate Refreshable(row: string, reposByUrl: map<string, Repo>) {
    RowUrl(row).Some? && RowUrl(row).value in reposByUrl && |Split(row, '|')| >= 5
  }

  /** What `update_row_stars(row, repos_by_url)` returns. */
  ghost function RefreshedRow(row: string, reposByUrl: map<string, Repo>): string {
    if Refreshable(row, reposByUrl) then
      Join(Split(row, '|')[3 := StarsCell(reposByUrl[RowUrl(row).value].stars)], '|')
    else row
  }

  /**
   * `update_row_stars(row, repos_by_url)`: when the row is refreshable, its
   * cells stay as they were except the stars cell, which holds the fresh
   * count; any other row comes back unchanged.
   */
  method UpdateRowStars(row: string, reposByUrl: map<string, Repo>) returns (r: string)
    ensures r == RefreshedRow(row, reposByUrl)
    ensures !Refreshable(row, reposByUrl) ==> r == row
    ensures Refreshable(row, reposByUrl) ==>
      Split(r, '|') == Split(row, '|')[3 := StarsCell(reposByUrl[RowUrl(row).value].stars)]
  {
    r := row;
    var urlMatch := Search(row);
    if urlMatch.Some? {
      var url := Canonical(row[urlMatch.value.0..urlMatch.value.1]);
      if url in reposByUrl {
        var newStars := reposByUrl[url].stars;
        var parts := Split(row, '|');
        if |parts| >= 5 {
          parts := parts[3 := StarsCell(newStars)];
          SplitJoin(parts, '|');
          r := Join(parts, '|');
        }
      }
    }
  }

  /** A refreshed row sorts by the fresh count. */
  lemma ExtractStarsOfRefreshedRow(row: string, reposByUrl: map<string, Repo>)
    requires Refreshable(row, reposByUrl)
    ensures ExtractStars(RefreshedRow(row, reposByUrl)) == reposByUrl[RowUrl(row).value].stars
  {
    var parts := Split(row, '|')[3 := StarsCell(reposByUrl[RowUrl(row).value].stars)];
    SplitJoin(parts, '|');
    StarsCellReadsBack(RefreshedRow(row, reposByUrl), reposByUrl[RowUrl(row).value].stars);
  }
}
