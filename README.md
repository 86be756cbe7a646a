# Nano AI service discovery — a Dafny model

`scripts/discover_nano_services.py` keeps a curated table of "nano" AI
repositories in a README. The table sits between the markers
`<!-- NANO_LIST_START -->` and `<!-- NANO_LIST_END -->`. On each run the script:

1. reads the repository addresses and the table rows already in that section;
2. runs a fixed list of GitHub searches and merges the results by lower-case
   `full_name`, where the first occurrence wins;
3. drops forks, archived repositories and repositories already listed, and
   sorts the rest by stars;
4. refreshes the star count of every existing row for which the search
   returned fresh data;
5. builds one row per new repository, merges the rows, sorts them by the stars
   cell, and splices the rebuilt section back between the markers.

This project models that logic in Dafny and proves what each step promises.
The search results are an input: one list of repository records per query, in
query order. A query that was rate limited is an empty list.

Modules:

- `PyStrings` (`py_strings.dfy`): the Python `str` operations the script uses,
  on `seq<char>`. These are `find`, `strip`, `rstrip(c)`, `split`, `join`,
  `replace`, `lower`, `startswith`, `str(int)` and `int(str)`.
- `GithubUrls` (`github_urls.dfy`): a hand-written leftmost, greedy scanner for
  the pattern `https://github\.com/[\w\-\.]+/[\w\-\.]+`. It covers `re.search`
  and `finditer`, plus the canonical form `.lower().rstrip("/")`.
- `StableSort` (`stable_sort.dfy`): `list.sort(key=…, reverse=True)` as a
  stable descending insertion sort. The module proves that every stable
  descending sort gives the same list.
- `Repos` and `TableRows` (`table_rows.dfy`): the repository record,
  `build_table_row`, `extract_stars_from_row` and `update_row_stars`.
- `ReadmeSection` (`readme_section.dfy`): `parse_existing_entries`,
  `parse_table_rows` and the splice at the end of `main`.
- `ReadmeRoundTrip` (`readme_roundtrip.dfy`): reading a spliced document back.
  The next run finds the markers again, and exactly the rows just written.
- `RowSafety` (`row_safety.dfy`): which rows survive a round trip through the
  document. These are every row read from it, every refreshed row, and every row
  built for a repository whose name, address and description hold no line
  break, no carriage return and no end marker. The script reads the document
  in text mode, which turns every carriage return into a line break; the
  module shows that the document written from such a reading, with safe
  repositories, holds no carriage return, so the next run reads it unchanged.
- `Discovery` (`discovery.dfy`): the body of `main`. It covers aggregation,
  `repos_by_url`, the filter, both sorts, the refresh, the merge and the
  splice, plus the format of the two run outputs.
- `DiscoveryExample` (`discovery_example.dfy`): a concrete run. The table has
  a `foo` row at 500 stars. The search finds `a/foo` at 600 and a new `b/bar`
  at 700.

The loops of the script are methods with loop invariants. Each method is
proved equal to a specification function, and the lemmas state the properties
of those functions. These methods are `CollectUrls`, `ParseExistingEntries`,
`KeepDataLines`, `ParseTableRows`, `UpdateRowStars`, `Aggregate`, `Partition`,
`UpdateRows`, `PlanTable`, `SpliceReadme` and `Discover`. The row codec is pure and is written as functions.

In three places the model follows the code where a reader might expect otherwise:

- Existing entries are empty when EITHER marker is missing, not only when both
  are.
- The rebuilt section has line breaks between its parts:
  `MARKER_START + "\n" + header + separator + rows joined by "\n" + "\n" + MARKER_END`.
- The intent that no canonical address appears twice in the final section is
  not enforced by the code. Duplicate existing rows are all kept, so the model
  does not claim it.

## Model

| member | source | states |
|---|---|---|
| `PyStrings.Strip` | scripts/discover_nano_services.py:97 | `strip()` gives a text with no whitespace at either end, and leaves an already stripped text unchanged |
| `PyStrings.StripBetweenSpaces` | scripts/discover_nano_services.py:109 | stripping whitespace around a stripped text gives that text back |
| `PyStrings.Find` | scripts/discover_nano_services.py:66-67 | `find` gives -1 or an index where the text occurs, and no earlier index has it |
| `PyStrings.RStripChar` | scripts/discover_nano_services.py:72 | `rstrip("/")` removes exactly the trailing run of `/` |
| `PyStrings.Split` | scripts/discover_nano_services.py:107 | `split(sep)` gives at least one piece, no piece holds `sep`, and joining the pieces gives the text back |
| `PyStrings.SplitJoin` | scripts/discover_nano_services.py:126-129 | splitting undoes joining when no piece holds the separator |
| `PyStrings.ReplaceChar` | scripts/discover_nano_services.py:80 | `replace("\|", "-")` keeps the length, changes exactly the `\|` characters, and leaves none |
| `PyStrings.RemoveChar` | scripts/discover_nano_services.py:109 | `replace(",", "")` leaves no comma; a text without commas is unchanged |
| `PyStrings.RemoveCharKeeps` | scripts/discover_nano_services.py:109 | every character other than the comma is kept, as many times as it occurs |
| `PyStrings.RemoveCharConcat` | scripts/discover_nano_services.py:109 | deleting works piece by piece, so the kept characters stay in their order |
| `PyStrings.IntToString` | scripts/discover_nano_services.py:84 | `str(n)` is non-empty and made of digits, with a leading `-` exactly when `n` is negative; it has no leading zero except in `"0"` itself, so no `"-0"` |
| `PyStrings.ParseIntToString` | scripts/discover_nano_services.py:111 | `int(str(n)) == n` |
| `PyStrings.ParseIntNeedsDigit` | scripts/discover_nano_services.py:110-113 | `int()` accepts no text without a digit |
| `PyStrings.IntStrip` | scripts/discover_nano_services.py:111 | the text `int()` reads its number from neither starts nor ends with the whitespace it skips, which is Python's whitespace except U+001C to U+001F; a text that `strip()` would leave unchanged is read unchanged |
| `PyStrings.IntStripBetween` | scripts/discover_nano_services.py:111 | `int()` drops exactly the whitespace it skips around a non-empty text that neither starts nor ends with it (the empty core is `ParseIntOfBlank`) |
| `PyStrings.ParseIntOfBlank` | scripts/discover_nano_services.py:110-113 | `int()` of a text made only of the whitespace it skips, or of nothing, leaves nothing to read and fails |
| `PyStrings.ParseIntKeepsSeparators` | scripts/discover_nano_services.py:111 | `int("\x1c5")` fails: U+001C is not skipped, although `strip()` removes it |
| `PyStrings.ParseIntSkipsTab` | scripts/discover_nano_services.py:111 | `int(" 5\t")` is 5 |
| `GithubUrls.MatchAtIsUrl` | scripts/discover_nano_services.py:65 | what the scanner matches is in the language of the address pattern |
| `GithubUrls.MatchAtIsLongest` | scripts/discover_nano_services.py:65 | the greedy match at a position is the longest text of the pattern there |
| `GithubUrls.SearchFrom` | scripts/discover_nano_services.py:119 | `re.search` gives the leftmost match; no match starts earlier |
| `GithubUrls.FindAll` | scripts/discover_nano_services.py:71 | `finditer` yields matches in order, without overlap |
| `GithubUrls.FindAllSkipsNothing` | scripts/discover_nano_services.py:71 | no match starts before the first match `finditer` yields, or in a gap between two |
| `GithubUrls.CanonicalOfUrl` | scripts/discover_nano_services.py:72 | a matched address never ends in `/`; its canonical form is its lower case and still matches the pattern |
| `StableSort.SortDescSorted` | scripts/discover_nano_services.py:183 | the sorted list is non-increasing in the key |
| `StableSort.SortDescPermutes` | scripts/discover_nano_services.py:197 | the sorted list is a permutation of the input |
| `StableSort.SortDescStable` | scripts/discover_nano_services.py:197 | elements with equal keys keep their input order |
| `StableSort.SortDescIsTheStableSort` | scripts/discover_nano_services.py:183 | every stable descending sort of a list equals the model's sort |
| `TableRows.DescriptionText` | scripts/discover_nano_services.py:80 | the description, with `None` read as empty, has no `\|` and is stripped |
| `TableRows.Truncate` | scripts/discover_nano_services.py:81-82 | a text of at most 100 characters is kept; a longer one becomes its first 97 characters and `...`, 100 in all |
| `TableRows.SanitizeDescription` | scripts/discover_nano_services.py:80-82 | a built row's description is stripped, has no `\|` and is at most 100 characters |
| `TableRows.BuildTableRow` | scripts/discover_nano_services.py:76-84 | a built row is its five cells (empty, ` [name](url) `, ` description `, ` stars `, empty) joined by `\|`, so it starts and ends with `\|` |
| `TableRows.BuiltRowCells` | scripts/discover_nano_services.py:84 | a built row splits into an empty cell, ` [name](url) `, ` description `, ` stars ` and an empty cell |
| `TableRows.ExtractStars` | scripts/discover_nano_services.py:105-114 | fewer than 4 parts or an unparseable stars cell gives 0; otherwise the result is the parsed number |
| `TableRows.StarsCellWithComma` | scripts/discover_nano_services.py:105-114 | a stars cell ` a,b ` of two digit runs reads as the number of the digits `a` then `b`, as ` 1,234 ` reads as 1234 |
| `TableRows.StarsCellWithSeparator` | scripts/discover_nano_services.py:105-114 | a stars cell ` ,\x1c5 ` reads as 0: stripping stops at the comma, and `int()` does not skip the U+001C left after the comma is deleted |
| `TableRows.StarsCellReadsBack` | scripts/discover_nano_services.py:105-114 | a stars cell written as ` n ` reads back as `n` |
| `TableRows.ExtractStarsOfBuiltRow` | scripts/discover_nano_services.py:76-114 | the stars read from a built row are the repository's count, when its name and address hold no `\|` |
| `TableRows.UpdateRowStars` | scripts/discover_nano_services.py:117-130 | a row whose first address has fresh data and has at least 5 parts changes only in part 3, which becomes ` stars `; any other row is returned unchanged |
| `TableRows.ExtractStarsOfRefreshedRow` | scripts/discover_nano_services.py:117-130 | a refreshed row sorts by the fresh count |
| `ReadmeSection.CollectUrls` | scripts/discover_nano_services.py:71-72 | the loop collects the canonical form of every match `finditer` yields |
| `ReadmeSection.ParseExistingEntries` | scripts/discover_nano_services.py:62-73 | the canonical addresses in the section; the empty set when a marker is missing |
| `ReadmeSection.ExistingUrlsAreAddresses` | scripts/discover_nano_services.py:71-72 | every collected entry is a lower-case address of the pattern |
| `ReadmeSection.KeepDataLines` | scripts/discover_nano_services.py:96-101 | the loop keeps the stripped data lines, in order |
| `ReadmeSection.ParseTableRows` | scripts/discover_nano_services.py:87-102 | the data lines of the section, stripped and in order; the empty list when a marker is missing |
| `ReadmeSection.DataLinesKeep` | scripts/discover_nano_services.py:99-101 | every line that is a data line once stripped is kept |
| `ReadmeSection.DataLinesFrom` | scripts/discover_nano_services.py:96-101 | every kept row is a stripped line of the section that is a data line |
| `ReadmeSection.TableRowsAreRows` | scripts/discover_nano_services.py:87-102 | every returned row is stripped, starts with `\|`, does not start with `\| Name` or `\|---`, and has no line break |
| `ReadmeSection.PyBound` | scripts/discover_nano_services.py:207 | a Python slice bound: inside the text as given, negative counted from the end, past the end gives the length, below minus the length gives 0 |
| `ReadmeSection.Splice` | scripts/discover_nano_services.py:200-207 | with the markers in order, the new document is the text before the start marker, then the new section (`NewSection`: the start marker, a line break, the header and separator lines, the rows joined by line breaks, a line break and the end marker), then the text after the end marker; any other document is unchanged |
| `ReadmeSection.SpliceReadme` | scripts/discover_nano_services.py:200-207 | the document as the script writes it, using the `find` positions as slice bounds even when they are -1; with the markers in order, this is `Splice` |
| `ReadmeSection.SpliceAgreesWhenWellFormed` | scripts/discover_nano_services.py:205-207 | with the markers in order, the splice is the one the script writes |
| `ReadmeSection.SpliceAsWrittenWithoutMarkers` | scripts/discover_nano_services.py:205-207 | as written, a document with no markers is kept up to its last character, followed by the new section and then the document again from index 21 (`-1 + len(END)`): one of more than 21 characters is almost all written twice, a shorter one loses its last character and gets the new section appended, an empty one becomes the new section; `Splice` leaves every such document unchanged |
| `ReadmeSection.SpliceAsWrittenOfIntro` | scripts/discover_nano_services.py:205-207 | as written, `"Intro\n"` becomes `"Intro"` followed by the new section, while `Splice` leaves it unchanged |
| `ReadmeSection.SpliceAsWrittenWithMarkersSwapped` | scripts/discover_nano_services.py:205-207 | as written, with the end marker first, the text between the markers appears on both sides of the new section |
| `ReadmeRoundTrip.SplicedMarkers` | scripts/discover_nano_services.py:200-207 | for a document with its markers in order and rows that are clean (stripped data lines with no line break and no end marker), after the splice the next run finds the start marker where it was and the end marker at the end of the new section |
| `ReadmeRoundTrip.ExistingRowsClean` | scripts/discover_nano_services.py:87-102 | every row read from any document is a stripped data line with no line break and no end marker, so it can be written back and read again |
| `ReadmeRoundTrip.SpliceReadsBack` | scripts/discover_nano_services.py:87-102 | splicing clean rows into a well-formed document gives one whose parsed table rows are exactly those rows |
| `RowSafety.RefreshedRowClean` | scripts/discover_nano_services.py:117-130 | refreshing a row that can be read back gives a row that can be read back |
| `RowSafety.BuiltRowClean` | scripts/discover_nano_services.py:76-84 | a row built for a safe repository (name, address and description text without line break, carriage return or end marker) can be read back |
| `RowSafety.ExistingRowsHaveNoReturn` | scripts/discover_nano_services.py:147-148 | the document read in text mode holds no carriage return, and then neither does any row read from it |
| `RowSafety.RefreshedRowHasNoReturn` | scripts/discover_nano_services.py:117-130 | refreshing a row adds no carriage return |
| `RowSafety.BuiltRowHasNoReturn` | scripts/discover_nano_services.py:76-84 | a row built for a safe repository holds no carriage return |
| `RowSafety.SplicedHasNoReturn` | scripts/discover_nano_services.py:200-211 | the document the script writes holds no carriage return when the document read and the rows hold none, so reading it back in text mode gives the same text |
| `Discovery.Aggregate` | scripts/discover_nano_services.py:155-162 | the loop builds `all_repos` in insertion order: the first result under each lower-case name |
| `Discovery.DedupFirstWins` | scripts/discover_nano_services.py:159-162 | names in `all_repos` are distinct, every result's name is present, and each entry is the first result with that name |
| `Discovery.SkippedQuery` | scripts/discover_nano_services.py:55-57 | a rate-limited query, as an empty result list, leaves the aggregation unchanged |
| `Discovery.ByUrlCovers` | scripts/discover_nano_services.py:171-173 | an address is in `repos_by_url` exactly when some aggregated repository has it, forks and archived ones included; its value is the last such repository |
| `Discovery.Partition` | scripts/discover_nano_services.py:169-180 | the loop gives the picked repositories and `repos_by_url` |
| `Discovery.NewReposMembership` | scripts/discover_nano_services.py:174-180 | a repository is picked exactly when it was aggregated, is not a fork, is not archived and its address is not listed |
| `Discovery.UpdateRows` | scripts/discover_nano_services.py:190 | one refreshed row per existing row, in order |
| `Discovery.BuildRowsStars` | scripts/discover_nano_services.py:193 | `BuildRows`, one built row per new repository, in order: each new row sorts by its repository's star count, when no repository's name or address holds `\|` |
| `Discovery.NewReposOfSorted` | scripts/discover_nano_services.py:183 | `new_repos` is non-increasing in stars and holds exactly the aggregated repositories that pass the filter |
| `Discovery.AllRowsOfSorted` | scripts/discover_nano_services.py:196-197 | `all_rows` is non-increasing in the extracted stars, a permutation of `updated_rows + new_rows`, and as long as both together |
| `Discovery.CombinedRowsClean` | scripts/discover_nano_services.py:189-196 | when every aggregated repository is safe, every row of `updated_rows + new_rows` can be read back |
| `Discovery.AllRowsClean` | scripts/discover_nano_services.py:196-197 | sorting keeps that: every row of `all_rows` can be read back |
| `Discovery.PlanTable` | scripts/discover_nano_services.py:150-197 | sorted filtered new repositories and the sorted merged rows, a permutation of the refreshed and the new rows |
| `Discovery.NextRunReadsBack` | scripts/discover_nano_services.py:200-207 | on a document with its markers in order and safe results, the script's splice equals `Splice` and the next run parses exactly the rows written (that run reads the same text: `Discovery.Discover`) |
| `Discovery.WrittenRowsHaveNoReturn` | scripts/discover_nano_services.py:147-197 | with a document read in text mode and safe results, no row of the new table holds a carriage return |
| `Discovery.Discover` | scripts/discover_nano_services.py:150-207 | the whole pipeline: the new repositories and rows of `PlanTable`, and the document as the script writes it, which is `Splice` when the markers are in order; with safe results the rows can be read back, and with the markers in order too the next run reads exactly these rows; with safe results the document written holds no carriage return when the one read holds none, as it does when read in text mode, so the next run's text-mode read gives back the same text |
| `Discovery.ServicesListLines` | scripts/discover_nano_services.py:217-221 | `ServicesList`, the `new_services` value: for a non-empty list whose names and addresses hold no line break, the `new_services` output has one line per new repository, in order; an empty list gives the one line `None` (the first branch of `ServicesList`) |
| `Discovery.OutputEntryLines` | scripts/discover_nano_services.py:133-141 | `OutputEntry`, one `set_github_output` entry: an output entry is `key=value` for a one-line value, else a `key<<EOF` block that holds the value's lines and ends with `EOF` |
| `DiscoveryExample.FooRowRefreshed` | scripts/discover_nano_services.py:117-130 | the row `\| [foo](https://github.com/a/foo) \| desc \| 500 \|` with fresh data at 600 becomes `\| [foo](https://github.com/a/foo) \| desc \| 600 \|` |
| `DiscoveryExample.FooBarScenario` | scripts/discover_nano_services.py:155-197 | with `foo` listed, only `bar` is new, and the merged table is the `bar` row and then the refreshed `foo` row |

## Left out

- HTTP search (`search_repos`, `get_headers`, the token and the query list): the results are an input list per query. A 403 response is an empty list. Any other failure aborts the script and is not modelled.
- File reading and writing, environment variables, `time.sleep` and `print` are not modelled. `set_github_output` is modelled only as the text of one entry, not the append to the file.
- `PyStrings.Lower`: only ASCII letters are lowered. Python's `str.lower()` also lowers other Unicode letters.
- `GithubUrls.IsPathChar`: `\w` is read as ASCII letters, digits and `_`. Python's `re` matches Unicode word characters for `str` patterns.
- `PyStrings.ParseInt`: accepts surrounding whitespace (Python's whitespace except U+001C to U+001F, which CPython's integer parser does not skip), an optional sign and ASCII digits with single underscores between them. Python's `int()` also accepts non-ASCII Unicode digits. CPython 3.11 and later (and the matching security releases of 3.7–3.10) raise `ValueError` for a decimal text of more than 4300 digits, so `extract_stars_from_row` returns 0 for such a cell; `ParseInt` has no length limit and returns the number.
- `StableSort.SortDesc`: the in-place `list.sort` is modelled as a pure stable sort on a sequence. `SortDescIsTheStableSort` shows the result is the same for any stable descending sort, but in-place mutation is not modelled.
- `Discovery.Aggregate`: the `all_repos` dict is modelled as its values in insertion order. Its keys are their lower-case names.
- Dict access on a search result that lacks a key raises `KeyError` in the script; the model's record always has every field. `fork` and `archived` are booleans, not arbitrary truthy values.
- `Discovery.Discover`: the next run reading back the rows written is proved only when every aggregated repository is safe, i.e. its name, address and description text hold no line break, no carriage return and no end marker. For other repositories the script writes rows that the next run splits or cuts short (a carriage return becomes a line break when the file is read in text mode); the model does not say what it then reads.
- File writing in text mode turns each line break into the platform's line separator. The model takes that separator to be a line break, as on Linux and macOS; on Windows the file holds carriage returns that the next text-mode read turns back into line breaks.
- The idempotence of two runs with no upstream change is not proved. `SpliceReadsBack` proves only that the next run reads back the rows written.
- `DiscoveryExample.FooBarScenario`: starts from the parsed rows and the listed addresses. Parsing the example document is covered only by the general lemmas.

## Findings

| source | as written | input that shows it | evidently intended | confidence | as-written member | corrected member |
|---|---|---|---|---|---|---|
| scripts/discover_nano_services.py:205-207 | uses the `find` positions as slice bounds even when a marker is missing (`find` gives -1) | `"Intro\n"` with no markers gives `"Intro"` followed by a new section; a document without markers longer than 21 characters is written almost twice | when the markers are not present in order, leave the document as it is | not executed | `ReadmeSection.SpliceAsWrittenWithoutMarkers`, `ReadmeSection.SpliceAsWrittenOfIntro` | `ReadmeSection.Splice` |
