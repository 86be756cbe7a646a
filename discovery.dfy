/**
 * The body of `main`: the search results are merged by repository name, the
 * new repositories are picked out and sorted, the existing rows get fresh
 * star counts, and the merged, sorted table is spliced back into the
 * document. The search results come in as one list per query, in query
 * order; fetching them, reading and writing the file and the progress
 * messages are not part of this model.
 */
module Discovery {
  import opened Options
  import opened PyStrings
  import opened StableSort
  import opened Repos
  import opened TableRows
  import opened ReadmeSection
  import opened ReadmeRoundTrip
  import opened RowSafety

  /** The results of all queries, one after the other. */
  function Flatten(results: seq<seq<Repo>>): seq<Repo> {
    if results == [] then [] else results[0] + Flatten(results[1..])
  }

  /** The keys of `all_repos` once `repos` are its values. */
  function NameKeys(repos: seq<Repo>): set<string> {
    set r | r in repos :: NameKey(r)
  }

  /**
   * What the aggregation loop adds to `all_repos` while it reads `xs`, when
   * the keys in `seen` are already there: each repository whose name key is
   * neither in `seen` nor met earlier in `xs`, in the order met.
   */
  ghost function DedupFrom(xs: seq<Repo>, seen: set<string>): seq<Repo> {
    if xs == [] then []
    else if NameKey(xs[0]) in seen then DedupFrom(xs[1..], seen)
    else [xs[0]] + DedupFrom(xs[1..], seen + {NameKey(xs[0])})
  }

  /** The values of `all_repos` after the loop over `xs`, in insertion order. */
  ghost function Dedup(xs: seq<Repo>): seq<Repo> {
    DedupFrom(xs, {})
  }

  lemma FlattenStep(results: seq<seq<Repo>>, q: nat)
    requires q < |results|
    ensures Flatten(results[q..]) == results[q] + Flatten(results[q + 1..])
  {
    assert results[q..][1..] == results[q + 1..];
  }

  /** One step of the aggregation loop: an unseen name is added, a seen one skipped. */
  lemma DedupStep(acc: seq<Repo>, repos: seq<Repo>, j: nat, tail: seq<Repo>, seen: set<string>)
    requires j < |repos|
    ensures NameKey(repos[j]) in seen ==>
      acc + DedupFrom(repos[j + 1..] + tail, seen) == acc + DedupFrom(repos[j..] + tail, seen)
    ensures NameKey(repos[j]) !in seen ==>
      acc + [repos[j]] + DedupFrom(repos[j + 1..] + tail, seen + {NameKey(repos[j])})
        == acc + DedupFrom(repos[j..] + tail, seen)
  {
    var xs := repos[j..] + tail;
    assert xs[0] == repos[j];
    assert xs[1..] == repos[j + 1..] + tail;
  }

  lemma {:induction false} FlattenConcat(a: seq<seq<Repo>>, b: seq<seq<Repo>>)
    ensures Flatten(a + b) == Flatten(a) + Flatten(b)
  {
    if a == [] {
      assert a + b == b;
    } else {
      assert (a + b)[0] == a[0] && (a + b)[1..] == a[1..] + b;
      FlattenConcat(a[1..], b);
      assert Flatten(a + b) == a[0] + (Flatten(a[1..]) + Flatten(b));
    }
  }

  lemma FlattenEmptyLast(before: seq<seq<Repo>>)
    ensures Flatten(before + [[]]) == Flatten(before)
  {
    var none: seq<Repo> := [];
    FlattenConcat(before, [none]);
    assert [none][1..] == [];
  }

  lemma FlattenSkipped(results: seq<seq<Repo>>, q: nat)
    requires q <= |results|
    ensures Flatten(results[..q] + [[]] + results[q..]) == Flatten(results)
  {
    var before, after := results[..q], results[q..];
    assert results == before + after;
    FlattenConcat(before + [[]], after);
    FlattenEmptyLast(before);
    FlattenConcat(before, after);
  }

  /**
   * A query whose search was rate limited contributes an empty list: the
   * run goes on, and aggregation sees exactly the other queries' results.
   */
  lemma SkippedQuery(results: seq<seq<Repo>>, q: nat)
    requires q <= |results|
    ensures Dedup(Flatten(results[..q] + [[]] + results[q..])) == Dedup(Flatten(results))
  {
    FlattenSkipped(results, q);
  }

  /**
   * The aggregation loop of `main`: for each query's results in turn, each
   * repository is added under its lower-case name unless that name is
   * already a key, so the first occurrence wins.
   */
  method Aggregate(results: seq<seq<Repo>>) returns (allRepos: seq<Repo>)
    ensures allRepos == Dedup(Flatten(results))
  {
    allRepos := [];
    var keys: set<string> := {};
    assert results[0..] == results;
    for q := 0 to |results|
      invariant keys == NameKeys(allRepos)
      invariant allRepos + DedupFrom(Flatten(results[q..]), keys) == Dedup(Flatten(results))
    {
      var repos := results[q];
      var tail := Flatten(results[q + 1..]);
      FlattenStep(results, q);
      assert repos[0..] == repos;
      for j := 0 to |repos|
        invariant keys == NameKeys(allRepos)
        invariant allRepos + DedupFrom(repos[j..] + tail, keys) == Dedup(Flatten(results))
      {
        DedupStep(allRepos, repos, j, tail, keys);
        var fullName := NameKey(repos[j]);
        if fullName !in keys {
          allRepos := allRepos + [repos[j]];
          keys := keys + {fullName};
        }
      }
      assert repos[|repos|..] + tail == tail;
    }
    assert results[|results|..] == [];
  }

  /** The first repository of `xs` whose name key is `k`, if any. */
  function FirstWithName(xs: seq<Repo>, k: string): Option<Repo> {
    if xs == [] then None
    else if NameKey(xs[0]) == k then Some(xs[0])
    else FirstWithName(xs[1..], k)
  }

  lemma {:induction false} DedupFromKeys(xs: seq<Repo>, seen: set<string>)
    ensures forall i :: 0 <= i < |DedupFrom(xs, seen)| ==> NameKey(DedupFrom(xs, seen)[i]) !in seen
    ensures forall i, j :: 0 <= i < j < |DedupFrom(xs, seen)| ==>
      NameKey(DedupFrom(xs, seen)[i]) != NameKey(DedupFrom(xs, seen)[j])
  {
    if xs != [] {
      var k := NameKey(xs[0]);
      if k in seen {
        DedupFromKeys(xs[1..], seen);
      } else {
        var rest := DedupFrom(xs[1..], seen + {k});
        DedupFromKeys(xs[1..], seen + {k});
        var d := [xs[0]] + rest;
        assert forall i :: 0 < i < |d| ==> d[i] == rest[i - 1];
      }
    }
  }

  lemma {:induction false} DedupFromFirst(xs: seq<Repo>, seen: set<string>)
    ensures forall i :: 0 <= i < |DedupFrom(xs, seen)| ==>
      FirstWithName(xs, NameKey(DedupFrom(xs, seen)[i])) == Some(DedupFrom(xs, seen)[i])
  {
    if xs != [] {
      var k := NameKey(xs[0]);
      if k in seen {
        DedupFromFirst(xs[1..], seen);
        DedupFromKeys(xs[1..], seen);
      } else {
        var rest := DedupFrom(xs[1..], seen + {k});
        DedupFromFirst(xs[1..], seen + {k});
        DedupFromKeys(xs[1..], seen + {k});
        var d := [xs[0]] + rest;
        assert forall i :: 0 < i < |d| ==> d[i] == rest[i - 1];
      }
    }
  }

  lemma {:induction false} DedupFromCovers(xs: seq<Repo>, seen: set<string>, p: nat) returns (i: nat)
    requires p < |xs| && NameKey(xs[p]) !in seen
    ensures i < |DedupFrom(xs, seen)| && NameKey(DedupFrom(xs, seen)[i]) == NameKey(xs[p])
  {
    var k := NameKey(xs[0]);
    assert p > 0 ==> xs[1..][p - 1] == xs[p];
    if p == 0 || (k !in seen && k == NameKey(xs[p])) {
      i := 0;
    } else if k in seen {
      i := DedupFromCovers(xs[1..], seen, p - 1);
    } else {
      var j := DedupFromCovers(xs[1..], seen + {k}, p - 1);
      i := j + 1;
    }
  }

  /**
   * `all_repos` after the loop: one repository per lower-case name, every
   * name of the results present, and each the first result under its name.
   */
  lemma DedupFirstWins(xs: seq<Repo>)
    ensures forall i, j :: 0 <= i < j < |Dedup(xs)| ==> NameKey(Dedup(xs)[i]) != NameKey(Dedup(xs)[j])
    ensures forall p :: 0 <= p < |xs| ==> NameKey(xs[p]) in NameKeys(Dedup(xs))
    ensures forall i :: 0 <= i < |Dedup(xs)| ==> FirstWithName(xs, NameKey(Dedup(xs)[i])) == Some(Dedup(xs)[i])
  {
    DedupFromKeys(xs, {});
    DedupFromFirst(xs, {});
    forall p | 0 <= p < |xs| ensures NameKey(xs[p]) in NameKeys(Dedup(xs)) {
      var i := DedupFromCovers(xs, {}, p);
      assert Dedup(xs)[i] in Dedup(xs);
    }
  }

  /**
   * `repos_by_url` after the loop over `xs`, starting from `m`: each
   * repository stored under its canonical address, a later one overwriting
   * an earlier one.
   */
  function ByUrlFrom(m: map<string, Repo>, xs: seq<Repo>): map<string, Repo>
    decreases |xs|
  {
    if xs == [] then m else ByUrlFrom(m[UrlKey(xs[0]) := xs[0]], xs[1..])
  }

  /** `repos_by_url` after the filtering loop over `xs`. */
  function ByUrl(xs: seq<Repo>): map<string, Repo> {
    ByUrlFrom(map[], xs)
  }

  /** An address no repository of `xs` has keeps its entry, or its absence. */
  lemma {:induction false} ByUrlUntouched(m: map<string, Repo>, xs: seq<Repo>, u: string)
    requires forall j :: 0 <= j < |xs| ==> UrlKey(xs[j]) != u
    ensures (u in ByUrlFrom(m, xs) <==> u in m)
    ensures u in m ==> ByUrlFrom(m, xs)[u] == m[u]
    decreases |xs|
  {
    if xs != [] {
      ByUrlUntouched(m[UrlKey(xs[0]) := xs[0]], xs[1..], u);
    }
  }

  /** The last repository of `xs` with a given address is the one stored under it. */
  lemma {:induction false} ByUrlLastWins(m: map<string, Repo>, xs: seq<Repo>, i: nat)
    requires i < |xs|
    requires forall j :: i < j < |xs| ==> UrlKey(xs[j]) != UrlKey(xs[i])
    ensures UrlKey(xs[i]) in ByUrlFrom(m, xs) && ByUrlFrom(m, xs)[UrlKey(xs[i])] == xs[i]
    decreases |xs|
  {
    if i == 0 {
      ByUrlUntouched(m[UrlKey(xs[0]) := xs[0]], xs[1..], UrlKey(xs[0]));
    } else {
      ByUrlLastWins(m[UrlKey(xs[0]) := xs[0]], xs[1..], i - 1);
    }
  }

  /** Every address in the table is one of an entry of `m` or of a repository of `xs`. */
  lemma {:induction false} ByUrlDomain(m: map<string, Repo>, xs: seq<Repo>, u: string)
    requires u in ByUrlFrom(m, xs)
    ensures u in m || exists i :: 0 <= i < |xs| && UrlKey(xs[i]) == u
    decreases |xs|
  {
    if xs != [] && u != UrlKey(xs[0]) {
      ByUrlDomain(m[UrlKey(xs[0]) := xs[0]], xs[1..], u);
      if u !in m {
        var i :| 0 <= i < |xs[1..]| && UrlKey(xs[1..][i]) == u;
        assert xs[i + 1] == xs[1..][i];
      }
    }
  }

  /**
   * `repos_by_url` covers every aggregated repository: an address is a key
   * exactly when some repository has it, and its value is the last
   * repository with that address.
   */
  lemma ByUrlCovers(xs: seq<Repo>, u: string)
    ensures u in ByUrl(xs) <==> exists i :: 0 <= i < |xs| && UrlKey(xs[i]) == u
    ensures u in ByUrl(xs) ==> exists i :: (0 <= i < |xs| && ByUrl(xs)[u] == xs[i] && UrlKey(xs[i]) == u
      && forall j :: i < j < |xs| ==> UrlKey(xs[j]) != u)
  {
    if u in ByUrl(xs) {
      ByUrlDomain(map[], xs, u);
      var i :| 0 <= i < |xs| && UrlKey(xs[i]) == u;
      while exists j :: i < j < |xs| && UrlKey(xs[j]) == u
        invariant 0 <= i < |xs| && UrlKey(xs[i]) == u
        decreases |xs| - i
      {
        var j :| i < j < |xs| && UrlKey(xs[j]) == u;
        i := j;
      }
      ByUrlLastWins(map[], xs, i);
    } else {
      forall i | 0 <= i < |xs| ensures UrlKey(xs[i]) != u {
        if UrlKey(xs[i]) == u {
          var last := i;
          while exists j :: last < j < |xs| && UrlKey(xs[j]) == u
            invariant 0 <= last < |xs| && UrlKey(xs[last]) == u
            decreases |xs| - last
          {
            var j :| last < j < |xs| && UrlKey(xs[j]) == u;
            last := j;
          }
          ByUrlLastWins(map[], xs, last);
        }
      }
    }
  }

  /** A repository the filtering loop appends to `new_repos`. */
  predicate IsNew(r: Repo, existingUrls: set<string>) {
    !r.fork && !r.archived && UrlKey(r) !in existingUrls
  }

  /** `new_repos` after the filtering loop over `xs`, before sorting. */
  ghost function NewRepos(xs: seq<Repo>, existingUrls: set<string>): seq<Repo> {
    if xs == [] then []
    else (if IsNew(xs[0], existingUrls) then [xs[0]] else []) + NewRepos(xs[1..], existingUrls)
  }

  /** A repository is picked exactly when it is among `xs`, not a fork, not archived and not listed. */
  lemma {:induction false} NewReposMembership(xs: seq<Repo>, existingUrls: set<string>, r: Repo)
    ensures r in NewRepos(xs, existingUrls) <==> r in xs && IsNew(r, existingUrls)
  {
    if xs != [] {
      NewReposMembership(xs[1..], existingUrls, r);
      assert xs == [xs[0]] + xs[1..];
    }
  }

  /** One step of the filtering loop: a picked repository is appended, any other skipped. */
  lemma NewReposStep(acc: seq<Repo>, xs: seq<Repo>, i: nat, existingUrls: set<string>)
    requires i < |xs|
    ensures IsNew(xs[i], existingUrls) ==>
      acc + [xs[i]] + NewRepos(xs[i + 1..], existingUrls) == acc + NewRepos(xs[i..], existingUrls)
    ensures !IsNew(xs[i], existingUrls) ==>
      acc + NewRepos(xs[i + 1..], existingUrls) == acc + NewRepos(xs[i..], existingUrls)
  {
    assert xs[i..][1..] == xs[i + 1..];
  }

  lemma ByUrlStep(m: map<string, Repo>, xs: seq<Repo>, i: nat)
    requires i < |xs|
    ensures ByUrlFrom(m, xs[i..]) == ByUrlFrom(m[UrlKey(xs[i]) := xs[i]], xs[i + 1..])
  {
    assert xs[i..][1..] == xs[i + 1..];
  }

  /**
   * The filtering loop of `main`: every repository is stored in
   * `repos_by_url` under its canonical address; forks, archived
   * repositories and listed addresses are skipped, the rest appended to
   * `new_repos`.
   */
  method Partition(allRepos: seq<Repo>, existingUrls: set<string>)
    returns (newRepos: seq<Repo>, reposByUrl: map<string, Repo>)
    ensures newRepos == NewRepos(allRepos, existingUrls)
    ensures reposByUrl == ByUrl(allRepos)
  {
    newRepos := [];
    reposByUrl := map[];
    assert allRepos[0..] == allRepos;
    for i := 0 to |allRepos|
      invariant newRepos + NewRepos(allRepos[i..], existingUrls) == NewRepos(allRepos, existingUrls)
      invariant ByUrlFrom(reposByUrl, allRepos[i..]) == ByUrl(allRepos)
    {
      var repo := allRepos[i];
      NewReposStep(newRepos, allRepos, i, existingUrls);
      ByUrlStep(reposByUrl, allRepos, i);
      var url := UrlKey(repo);
      reposByUrl := reposByUrl[url := repo];
      if repo.fork {
        continue;
      }
      if repo.archived {
        continue;
      }
      if url in existingUrls {
        continue;
      }
      newRepos := newRepos + [repo];
    }
    assert allRepos[|allRepos|..] == [];
  }

  /** What `[update_row_stars(row, repos_by_url) for row in existing_rows]` holds. */
  ghost function RefreshedRows(rows: seq<string>, reposByUrl: map<string, Repo>): seq<string> {
    seq(|rows|, i requires 0 <= i < |rows| => RefreshedRow(rows[i], reposByUrl))
  }

  /** `[update_row_stars(row, repos_by_url) for row in existing_rows]`: one updated row per row, in order. */
  method UpdateRows(rows: seq<string>, reposByUrl: map<string, Repo>) returns (updated: seq<string>)
    ensures updated == RefreshedRows(rows, reposByUrl)
  {
    updated := [];
    for i := 0 to |rows|
      invariant updated == RefreshedRows(rows[..i], reposByUrl)
    {
      var row := UpdateRowStars(rows[i], reposByUrl);
      assert rows[..i + 1] == rows[..i] + [rows[i]];
      updated := updated + [row];
    }
    assert rows[..|rows|] == rows;
  }

  /** `[build_table_row(repo) for repo in new_repos]` */
  function BuildRows(repos: seq<Repo>): (rows: seq<string>)
    ensures |rows| == |repos|
  {
    seq(|repos|, i requires 0 <= i < |repos| => BuildTableRow(repos[i]))
  }

  /** Every row built for a repository sorts by that repository's star count. */
  lemma BuildRowsStars(repos: seq<Repo>)
    requires forall i :: 0 <= i < |repos| ==> '|' !in repos[i].name && '|' !in repos[i].htmlUrl
    ensures forall i :: 0 <= i < |repos| ==> ExtractStars(BuildRows(repos)[i]) == repos[i].stars
  {
    forall i | 0 <= i < |repos| ensures ExtractStars(BuildRows(repos)[i]) == repos[i].stars {
      ExtractStarsOfBuiltRow(repos[i]);
    }
  }

  /** The sorted `new_repos` of `main`. */
  ghost function NewReposOf(readme: string, results: seq<seq<Repo>>): seq<Repo> {
    SortDesc(NewRepos(Dedup(Flatten(results)), ExistingUrls(readme)), Stars)
  }

  /** `updated_rows + new_rows`, before sorting. */
  ghost function CombinedRowsOf(readme: string, results: seq<seq<Repo>>): seq<string> {
    RefreshedRows(TableRowsOf(readme), ByUrl(Dedup(Flatten(results))))
      + BuildRows(NewReposOf(readme, results))
  }

  /** The sorted `all_rows` of `main`. */
  ghost function AllRowsOf(readme: string, results: seq<seq<Repo>>): seq<string> {
    SortDesc(CombinedRowsOf(readme, results), ExtractStars)
  }

  /**
   * The sorted new repositories are sorted by stars, and are exactly the
   * aggregated repositories that are neither forks nor archived nor listed.
   */
  lemma NewReposOfSorted(readme: string, results: seq<seq<Repo>>)
    ensures SortedDesc(NewReposOf(readme, results), Stars)
    ensures forall r :: r in NewReposOf(readme, results) <==>
      r in Dedup(Flatten(results)) && IsNew(r, ExistingUrls(readme))
  {
    var picked := NewRepos(Dedup(Flatten(results)), ExistingUrls(readme));
    SortDescSorted(picked, Stars);
    SortDescPermutes(picked, Stars);
    forall r ensures r in NewReposOf(readme, results) <==> r in Dedup(Flatten(results)) && IsNew(r, ExistingUrls(readme)) {
      NewReposMembership(Dedup(Flatten(results)), ExistingUrls(readme), r);
      assert r in NewReposOf(readme, results) <==> r in multiset(NewReposOf(readme, results));
    }
  }

  /**
   * The rows of the new table are sorted by their stars cell and are the
   * refreshed rows and the new rows, each as many times as there.
   */
  lemma AllRowsOfSorted(readme: string, results: seq<seq<Repo>>)
    ensures SortedDesc(AllRowsOf(readme, results), ExtractStars)
    ensures multiset(AllRowsOf(readme, results)) == multiset(CombinedRowsOf(readme, results))
    ensures |AllRowsOf(readme, results)| == |TableRowsOf(readme)| + |NewReposOf(readme, results)|
  {
    SortDescSorted(CombinedRowsOf(readme, results), ExtractStars);
    SortDescPermutes(CombinedRowsOf(readme, results), ExtractStars);
  }

  /** Every aggregated repository is safe to write as a row. */
  ghost predicate SafeResults(results: seq<seq<Repo>>) {
    forall r :: r in Dedup(Flatten(results)) ==> SafeRepo(r)
  }

  lemma RefreshedRowsClean(rows: seq<string>, reposByUrl: map<string, Repo>)
    requires CleanRows(rows)
    ensures CleanRows(RefreshedRows(rows, reposByUrl))
  {
    forall k | 0 <= k < |rows| ensures CleanRow(RefreshedRows(rows, reposByUrl)[k]) {
      RefreshedRowClean(rows[k], reposByUrl);
    }
  }

  lemma BuiltRowsClean(repos: seq<Repo>)
    requires forall i :: 0 <= i < |repos| ==> SafeRepo(repos[i])
    ensures CleanRows(BuildRows(repos))
  {
    forall k | 0 <= k < |repos| ensures CleanRow(BuildRows(repos)[k]) {
      BuiltRowClean(repos[k]);
    }
  }

  lemma CleanRowsConcat(a: seq<string>, b: seq<string>)
    requires CleanRows(a) && CleanRows(b)
    ensures CleanRows(a + b)
  {
    forall k | 0 <= k < |a + b| ensures CleanRow((a + b)[k]) {
      if k >= |a| {
        assert (a + b)[k] == b[k - |a|];
      }
    }
  }

  /**
   * The rows of the new table can be read back: the existing rows as read,
   * refreshed, and the rows built for safe repositories.
   */
  lemma CombinedRowsClean(readme: string, results: seq<seq<Repo>>)
    requires SafeResults(results)
    ensures CleanRows(CombinedRowsOf(readme, results))
  {
    var refreshed := RefreshedRows(TableRowsOf(readme), ByUrl(Dedup(Flatten(results))));
    var built := BuildRows(NewReposOf(readme, results));
    ExistingRowsClean(readme);
    RefreshedRowsClean(TableRowsOf(readme), ByUrl(Dedup(Flatten(results))));
    NewReposSafe(readme, results);
    BuiltRowsClean(NewReposOf(readme, results));
    CleanRowsConcat(refreshed, built);
  }

  /** The new repositories are aggregated ones, so they are safe when all of those are. */
  lemma NewReposSafe(readme: string, results: seq<seq<Repo>>)
    requires SafeResults(results)
    ensures forall i :: 0 <= i < |NewReposOf(readme, results)| ==> SafeRepo(NewReposOf(readme, results)[i])
  {
    var picked := NewReposOf(readme, results);
    NewReposOfSorted(readme, results);
    forall i | 0 <= i < |picked| ensures SafeRepo(picked[i]) {
      assert picked[i] in picked;
    }
  }

  /** Sorting keeps every row, so the sorted rows can be read back too. */
  lemma AllRowsClean(readme: string, results: seq<seq<Repo>>)
    requires SafeResults(results)
    ensures CleanRows(AllRowsOf(readme, results))
  {
    var combined := CombinedRowsOf(readme, results);
    var all := AllRowsOf(readme, results);
    CombinedRowsClean(readme, results);
    SortDescPermutes(combined, ExtractStars);
    forall k | 0 <= k < |all| ensures CleanRow(all[k]) {
      assert all[k] in multiset(all);
      assert all[k] in combined;
      var j :| 0 <= j < |combined| && combined[j] == all[k];
    }
  }

  /** On a document with its markers in order, the script's splice of safe results reads back as the rows written. */
  lemma NextRunReadsBack(readme: string, results: seq<seq<Repo>>)
    requires WellFormed(readme) && SafeResults(results)
    ensures SpliceAsWritten(readme, AllRowsOf(readme, results)) == Splice(readme, AllRowsOf(readme, results))
    ensures TableRowsOf(SpliceAsWritten(readme, AllRowsOf(readme, results))) == AllRowsOf(readme, results)
  {
    SpliceAgreesWhenWellFormed(readme, AllRowsOf(readme, results));
    AllRowsClean(readme, results);
    SpliceReadsBack(readme, AllRowsOf(readme, results));
  }

  lemma RefreshedRowsHaveNoReturn(rows: seq<string>, reposByUrl: map<string, Repo>)
    requires NoReturnRows(rows)
    ensures NoReturnRows(RefreshedRows(rows, reposByUrl))
  {
    forall k | 0 <= k < |rows| ensures '\r' !in RefreshedRows(rows, reposByUrl)[k] {
      RefreshedRowHasNoReturn(rows[k], reposByUrl);
    }
  }

  lemma BuiltRowsHaveNoReturn(repos: seq<Repo>)
    requires forall i :: 0 <= i < |repos| ==> SafeRepo(repos[i])
    ensures NoReturnRows(BuildRows(repos))
  {
    forall k | 0 <= k < |repos| ensures '\r' !in BuildRows(repos)[k] {
      BuiltRowHasNoReturn(repos[k]);
    }
  }

  lemma NoReturnRowsConcat(a: seq<string>, b: seq<string>)
    requires NoReturnRows(a) && NoReturnRows(b)
    ensures NoReturnRows(a + b)
  {
    forall k | 0 <= k < |a + b| ensures '\r' !in (a + b)[k] {
      if k >= |a| {
        assert (a + b)[k] == b[k - |a|];
      }
    }
  }

  /** Sorting only reorders rows, so it adds no carriage return. */
  lemma SortedRowsHaveNoReturn(rows: seq<string>)
    requires NoReturnRows(rows)
    ensures NoReturnRows(SortDesc(rows, ExtractStars))
  {
    var sorted := SortDesc(rows, ExtractStars);
    SortDescPermutes(rows, ExtractStars);
    forall k | 0 <= k < |sorted| ensures '\r' !in sorted[k] {
      assert sorted[k] in multiset(sorted);
      assert sorted[k] in rows;
      var j :| 0 <= j < |rows| && rows[j] == sorted[k];
    }
  }

  /**
   * The rows of the new table hold no carriage return when the document read
   * and the aggregated repositories hold none: refreshing adds none, built
   * rows of safe repositories have none, and sorting only reorders.
   */
  lemma WrittenRowsHaveNoReturn(readme: string, results: seq<seq<Repo>>)
    requires '\r' !in readme && SafeResults(results)
    ensures NoReturnRows(AllRowsOf(readme, results))
  {
    var existing := TableRowsOf(readme);
    var m := ByUrl(Dedup(Flatten(results)));
    var picked := NewReposOf(readme, results);
    ExistingRowsHaveNoReturn(readme);
    RefreshedRowsHaveNoReturn(existing, m);
    NewReposSafe(readme, results);
    BuiltRowsHaveNoReturn(picked);
    NoReturnRowsConcat(RefreshedRows(existing, m), BuildRows(picked));
    SortedRowsHaveNoReturn(CombinedRowsOf(readme, results));
  }

  /**
   * The table `main` computes: the sorted new repositories and the sorted
   * rows of the new table, the existing rows refreshed and the new rows
   * built.
   */
  method PlanTable(readme: string, results: seq<seq<Repo>>) returns (newRepos: seq<Repo>, allRows: seq<string>)
    ensures newRepos == NewReposOf(readme, results)
    ensures allRows == AllRowsOf(readme, results)
    ensures SortedDesc(newRepos, Stars)
    ensures forall r :: r in newRepos <==> r in Dedup(Flatten(results)) && IsNew(r, ExistingUrls(readme))
    ensures SortedDesc(allRows, ExtractStars)
    ensures multiset(allRows) == multiset(CombinedRowsOf(readme, results))
    ensures |allRows| == |TableRowsOf(readme)| + |newRepos|
  {
    var existingUrls := ParseExistingEntries(readme);
    var existingRows := ParseTableRows(readme);
    var allRepos := Aggregate(results);
    var picked, reposByUrl := Partition(allRepos, existingUrls);
    newRepos := SortDesc(picked, Stars);
    var updatedRows := UpdateRows(existingRows, reposByUrl);
    var newRows := BuildRows(newRepos);
    allRows := SortDesc(updatedRows + newRows, ExtractStars);
    NewReposOfSorted(readme, results);
    AllRowsOfSorted(readme, results);
  }

  /**
   * `main` without its I/O: from the document and the search results, the
   * new document as the script writes it, the sorted new repositories and
   * the sorted rows of the new table. When the markers are in order and
   * every aggregated repository is safe, the next run reads back exactly
   * these rows. A document read in text mode holds no carriage return, and
   * with safe results the document written holds none either, so the next
   * run reads the very text written.
   */
  method Discover(readme: string, results: seq<seq<Repo>>)
    returns (newReadme: string, newRepos: seq<Repo>, allRows: seq<string>)
    ensures newRepos == NewReposOf(readme, results)
    ensures allRows == AllRowsOf(readme, results)
    ensures newReadme == SpliceAsWritten(readme, allRows)
    ensures WellFormed(readme) ==> newReadme == Splice(readme, allRows)
    ensures SafeResults(results) ==> CleanRows(allRows)
    ensures WellFormed(readme) && SafeResults(results) ==> TableRowsOf(newReadme) == allRows
    ensures '\r' !in readme && SafeResults(results) ==> '\r' !in newReadme
  {
    newRepos, allRows := PlanTable(readme, results);
    newReadme := SpliceReadme(readme, allRows);
    if SafeResults(results) {
      AllRowsClean(readme, results);
    }
    if WellFormed(readme) && SafeResults(results) {
      NextRunReadsBack(readme, results);
    }
    if '\r' !in readme && SafeResults(results) {
      WrittenRowsHaveNoReturn(readme, results);
      SplicedHasNoReturn(readme, allRows);
    }
  }

  /** The `new_services` output: one line per new repository, or `None` when there is none. */
  function ServicesList(repos: seq<Repo>): string {
    if repos == [] then "None" else Join(ServiceLines(repos), '\n')
  }

  /** `f"- [{full_name}]({html_url}) ({stargazers_count} stars)"` for each repository. */
  function ServiceLines(repos: seq<Repo>): seq<string> {
    seq(|repos|, i requires 0 <= i < |repos| => ServiceLine(repos[i]))
  }

  function ServiceLine(r: Repo): string {
    "- [" + r.fullName + "](" + r.htmlUrl + ") (" + IntToString(r.stars) + " stars)"
  }

  lemma ServiceLineHasNoBreak(r: Repo)
    requires '\n' !in r.fullName && '\n' !in r.htmlUrl
    ensures '\n' !in ServiceLine(r)
  {
    var s := IntToString(r.stars);
    assert '\n' !in s by {
      forall i | 0 <= i < |s| ensures s[i] != '\n' {
        assert IsDigit(s[i]) || s[i] == '-';
      }
    }
    NotInConcat('\n', "- [", r.fullName);
    NotInConcat('\n', "- [" + r.fullName, "](");
    NotInConcat('\n', "- [" + r.fullName + "](", r.htmlUrl);
    NotInConcat('\n', "- [" + r.fullName + "](" + r.htmlUrl, ") (");
    NotInConcat('\n', "- [" + r.fullName + "](" + r.htmlUrl + ") (", s);
    NotInConcat('\n', "- [" + r.fullName + "](" + r.htmlUrl + ") (" + s, " stars)");
  }

  /**
   * When no name or address holds a line break, the output splits into one
   * line per new repository, in order.
   */
  lemma ServicesListLines(repos: seq<Repo>)
    requires repos != []
    requires forall i :: 0 <= i < |repos| ==> '\n' !in repos[i].fullName && '\n' !in repos[i].htmlUrl
    ensures Split(ServicesList(repos), '\n') == ServiceLines(repos)
    ensures |Split(ServicesList(repos), '\n')| == |repos|
  {
    var lines := ServiceLines(repos);
    forall i | 0 <= i < |lines| ensures '\n' !in lines[i] {
      ServiceLineHasNoBreak(repos[i]);
    }
    SplitJoin(lines, '\n');
  }

  /**
   * One `set_github_output(key, value)` entry: `key=value` on one line, or,
   * when the value spans lines, a `key<<EOF` block closed by `EOF`.
   */
  function OutputEntry(key: string, value: string): string {
    if '\n' in value then key + "<<EOF\n" + value + "\nEOF\n" else key + "=" + value + "\n"
  }

  lemma SplitEofLine()
    ensures Split("EOF" + ['\n'] + "", '\n') == ["EOF", ""]
  {
    SplitConcat("EOF", "", '\n');
    assert Split("", '\n') == [""];
  }

  lemma SplitOneLineEntry(key: string, value: string)
    requires '\n' !in key && '\n' !in value
    ensures Split(key + "=" + value + "\n", '\n') == [key + "=" + value, ""]
  {
    var line := key + "=" + value;
    NotInConcat('\n', key, "=");
    NotInConcat('\n', key + "=", value);
    assert line + "\n" == line + ['\n'] + "";
    SplitConcat(line, "", '\n');
  }

  lemma SplitBlockEntry(key: string, value: string)
    requires '\n' !in key
    ensures Split(key + "<<EOF\n" + value + "\nEOF\n", '\n') == [key + "<<EOF"] + Split(value, '\n') + ["EOF", ""]
  {
    var opening, closing := key + "<<EOF", "EOF" + ['\n'] + "";
    NotInConcat('\n', key, "<<EOF");
    assert key + "<<EOF\n" + value + "\nEOF\n" == opening + ['\n'] + (value + ['\n'] + closing);
    SplitConcat(opening, value + ['\n'] + closing, '\n');
    SplitAround(value, closing, '\n');
    SplitEofLine();
  }

  /**
   * An entry reads back line by line: a one-line value as `key=value`, a
   * longer one as the opening line, the value's own lines and `EOF`; in both
   * cases the entry ends with a line break.
   */
  lemma OutputEntryLines(key: string, value: string)
    requires '\n' !in key
    ensures '\n' !in value ==> Split(OutputEntry(key, value), '\n') == [key + "=" + value, ""]
    ensures '\n' in value ==>
      Split(OutputEntry(key, value), '\n') == [key + "<<EOF"] + Split(value, '\n') + ["EOF", ""]
  {
    if '\n' in value {
      SplitBlockEntry(key, value);
    } else {
      SplitOneLineEntry(key, value);
    }
  }
}
