/**
 * A worked example run through the model: a table holding one `foo` row,
 * and a search that finds `foo` again and a new `bar`.
 */
module DiscoveryExample {
  import opened Options
  import opened PyStrings
  import opened GithubUrls
  import opened Repos
  import opened TableRows
  import opened StableSort
  import opened Discovery

  const FooUrl: string := UrlPrefix + "a/foo"
  const BarUrl: string := UrlPrefix + "b/bar"
  const FooRow: string := "| [foo](" + FooUrl + ") | desc | 500 |"

  lemma NoMatchBefore(i: nat)
    requires i < 8
    ensures MatchAt(FooRow, i).None?
  {
    assert FooRow[..8] == "| [foo](";
    assert FooRow[i] in FooRow[..8];
    assert FooRow[i..i + |UrlPrefix|][0] != UrlPrefix[0];
  }

  lemma FooRowRuns()
    ensures RunEnd(FooRow, 27) == 28 && RunEnd(FooRow, 29) == 32
  {
    RunEndAt(FooRow, 27, 28);
    RunEndAt(FooRow, 29, 32);
  }

  lemma FooRowSearch()
    ensures Search(FooRow) == Some((8, 32))
  {
    forall i | 0 <= i < 8 ensures MatchAt(FooRow, i).None? { NoMatchBefore(i); }
    assert FooRow[8..27] == UrlPrefix;
    FooRowRuns();
    assert MatchAt(FooRow, 8) == Some(32);
  }

  lemma FooUrlCanonical()
    ensures Canonical(FooUrl) == FooUrl
  {
    assert Lower(FooUrl) == FooUrl;
  }

  lemma FooRowCells()
    ensures Split(FooRow, '|') == ["", " [foo](" + FooUrl + ") ", " desc ", " 500 ", ""]
  {
    var link := " [foo](" + FooUrl + ") ";
    assert FooRow == "|" + link + "|" + " desc " + "|" + " 500 " + "|" by {
      assert "| [foo](" == "|" + " [foo](";
      assert ") | desc | 500 |" == ") " + "|" + " desc " + "|" + " 500 " + "|";
    }
    assert '|' !in FooUrl by {
      NotInConcat('|', UrlPrefix, "a/foo");
    }
    LinkCellHasNoBar("foo", FooUrl);
    assert link == LinkCell("foo", FooUrl);
    SplitThreeCells(" [foo](" + FooUrl + ") ", " desc ", " 500 ");
  }

  lemma FooRowUrl()
    ensures RowUrl(FooRow) == Some(FooUrl)
  {
    FooRowSearch();
    FooUrlCanonical();
    assert FooRow[8..32] == FooUrl;
  }

  lemma StarsCell600()
    ensures StarsCell(600) == " 600 "
  {
    assert NatToString(6) == "6";
    assert NatToString(60) == "60";
    assert NatToString(600) == "600";
  }

  lemma FooCellsJoin()
    ensures Join(["", " [foo](" + FooUrl + ") ", " desc ", " 600 ", ""], '|') == "| [foo](" + FooUrl + ") | desc | 600 |"
  {
    JoinFive("", " [foo](" + FooUrl + ") ", " desc ", " 600 ", "", '|');
  }

  /**
   * The existing `foo` row, refreshed from a search result with 600 stars,
   * keeps its link and description and shows the new count.
   */
  lemma FooRowRefreshed(foo: Repo, others: map<string, Repo>)
    requires foo.stars == 600
    ensures RefreshedRow(FooRow, others[FooUrl := foo]) == "| [foo](" + FooUrl + ") | desc | 600 |"
  {
    var m := others[FooUrl := foo];
    FooRowUrl();
    FooRowCells();
    assert Refreshable(FooRow, m);
    StarsCell600();
    var parts := Split(FooRow, '|')[3 := StarsCell(600)];
    assert parts == ["", " [foo](" + FooUrl + ") ", " desc ", " 600 ", ""];
    FooCellsJoin();
  }

  lemma BarUrlCanonical()
    ensures Canonical(BarUrl) == BarUrl
  {
    assert Lower(BarUrl) == BarUrl;
  }

  lemma UrlsDiffer()
    ensures FooUrl != BarUrl
  {
    assert FooUrl[|UrlPrefix|] != BarUrl[|UrlPrefix|];
  }

  lemma NamesDiffer(foo: Repo, bar: Repo)
    requires foo.fullName == "a/foo" && bar.fullName == "b/bar"
    ensures NameKey(foo) != NameKey(bar)
  {
    assert NameKey(foo)[0] == 'a' && NameKey(bar)[0] == 'b';
  }

  /** The two search results are aggregated as they come, and `repos_by_url` holds both. */
  lemma FooBarAggregated(foo: Repo, bar: Repo)
    requires foo.fullName == "a/foo" && foo.htmlUrl == FooUrl
    requires bar.fullName == "b/bar" && bar.htmlUrl == BarUrl
    ensures Dedup(Flatten([[foo, bar]])) == [foo, bar]
    ensures ByUrl([foo, bar]) == map[BarUrl := bar][FooUrl := foo]
  {
    assert Flatten([[foo, bar]]) == [foo, bar] by {
      assert Flatten([[foo, bar]][1..]) == [];
    }
    NamesDiffer(foo, bar);
    assert [foo, bar][1..] == [bar] && [bar][1..] == [];
    var seen: set<string> := {} + {NameKey(foo)};
    assert NameKey(bar) !in seen;
    assert DedupFrom([bar], seen) == [bar] + DedupFrom([], seen + {NameKey(bar)});
    assert DedupFrom([foo, bar], {}) == [foo] + DedupFrom([bar], seen);
    FooUrlCanonical();
    BarUrlCanonical();
    UrlsDiffer();
    assert ByUrlFrom(map[FooUrl := foo], [bar]) == map[FooUrl := foo][BarUrl := bar];
    assert map[FooUrl := foo][BarUrl := bar] == map[BarUrl := bar][FooUrl := foo];
  }

  lemma BarRowStars(bar: Repo)
    requires bar.name == "bar" && bar.htmlUrl == BarUrl && bar.stars == 700
    ensures ExtractStars(BuildTableRow(bar)) == 700
  {
    assert '|' !in BarUrl by {
      NotInConcat('|', UrlPrefix, "b/bar");
    }
    ExtractStarsOfBuiltRow(bar);
  }

  lemma FooRowStars(foo: Repo, others: map<string, Repo>)
    requires foo.stars == 600
    ensures ExtractStars(RefreshedRow(FooRow, others[FooUrl := foo])) == 600
  {
    FooRowUrl();
    FooRowCells();
    ExtractStarsOfRefreshedRow(FooRow, others[FooUrl := foo]);
  }

  lemma FooBarNew(foo: Repo, bar: Repo)
    requires foo.htmlUrl == FooUrl && bar.htmlUrl == BarUrl
    requires !bar.fork && !bar.archived
    ensures SortDesc(NewRepos([foo, bar], {FooUrl}), Stars) == [bar]
  {
    FooUrlCanonical();
    BarUrlCanonical();
    UrlsDiffer();
    assert [foo, bar][1..] == [bar] && [bar][1..] == [];
    assert !IsNew(foo, {FooUrl}) && IsNew(bar, {FooUrl});
    assert NewRepos([bar], {FooUrl}) == [bar];
    assert NewRepos([foo, bar], {FooUrl}) == [bar];
  }

  /** Two elements whose second has the greater key come out swapped. */
  lemma SortTwo<T>(x: T, y: T, key: T -> int)
    requires key(y) > key(x)
    ensures SortDesc([x, y], key) == [y, x]
  {
    assert [x, y][1..] == [y] && [y][1..] == [];
    assert SortDesc([y], key) == Insert(y, [], key) == [y];
    assert SortDesc([x, y], key) == Insert(x, [y], key);
    assert Insert(x, [y], key) == [y] + Insert(x, [], key);
  }

  lemma RefreshedOne(row: string, m: map<string, Repo>)
    ensures RefreshedRows([row], m) == [RefreshedRow(row, m)]
  {
  }

  lemma BuiltOne(bar: Repo)
    ensures BuildRows([bar]) == [BuildTableRow(bar)]
  {
  }

  lemma MergedRows(fooRow: string, bar: Repo, m: map<string, Repo>)
    requires RefreshedRow(FooRow, m) == fooRow
    ensures RefreshedRows([FooRow], m) + BuildRows([bar]) == [fooRow, BuildTableRow(bar)]
  {
    RefreshedOne(FooRow, m);
    BuiltOne(bar);
  }

  lemma FooBarRows(foo: Repo, bar: Repo)
    requires foo == Repo("a/foo", "foo", FooUrl, Some("desc"), 600, false, false)
    requires bar.name == "bar" && bar.htmlUrl == BarUrl && bar.stars == 700
    ensures SortDesc(RefreshedRows([FooRow], map[BarUrl := bar][FooUrl := foo]) + BuildRows([bar]), ExtractStars)
      == [BuildTableRow(bar), "| [foo](" + FooUrl + ") | desc | 600 |"]
  {
    var m := map[BarUrl := bar][FooUrl := foo];
    FooRowRefreshed(foo, map[BarUrl := bar]);
    FooRowStars(foo, map[BarUrl := bar]);
    BarRowStars(bar);
    var fooRow := RefreshedRow(FooRow, m);
    MergedRows(fooRow, bar, m);
    SortTwo(fooRow, BuildTableRow(bar), ExtractStars);
  }

  /**
   * The table holds the `foo` row at 500 stars; the search finds `a/foo` at 600 and the new `b/bar` at 700,
   * neither a fork nor archived. Only `bar` is new, and the merged table
   * lists `bar` first, then `foo` with its count refreshed and its
   * description kept.
   */
  lemma FooBarScenario(foo: Repo, bar: Repo)
    requires foo == Repo("a/foo", "foo", FooUrl, Some("desc"), 600, false, false)
    requires bar.fullName == "b/bar" && bar.name == "bar" && bar.htmlUrl == BarUrl && bar.stars == 700
    requires !bar.fork && !bar.archived
    ensures var all := Dedup(Flatten([[foo, bar]]));
      var newRepos := SortDesc(NewRepos(all, {FooUrl}), Stars);
      && newRepos == [bar]
      && SortDesc(RefreshedRows([FooRow], ByUrl(all)) + BuildRows(newRepos), ExtractStars)
        == [BuildTableRow(bar), "| [foo](" + FooUrl + ") | desc | 600 |"]
  {
    FooBarAggregated(foo, bar);
    FooBarNew(foo, bar);
    FooBarRows(foo, bar);
  }
}
