/**
 * A hand-written scanner for the regular expression
 * `https://github\.com/[\w\-\.]+/[\w\-\.]+` that the script uses to find
 * repository addresses, and the canonical form (`.lower().rstrip("/")`) it
 * compares them in.
 */
module GithubUrls {
  import opened Options
  import opened PyStrings

  const UrlPrefix: string := "https://github.com/"

  /** The class `[\w\-\.]`, with `\w` read as ASCII letters, digits and `_`. */
  predicate IsPathChar(c: char) {
    ('a' <= c <= 'z') || ('A' <= c <= 'Z') || ('0' <= c <= '9') || c == '_' || c == '-' || c == '.'
  }

  predicate AllPath(s: string) {
    forall i :: 0 <= i < |s| ==> IsPathChar(s[i])
  }

  /** `t` is a whole match of the pattern whose owner and name are separated by the `/` at `m`. */
  ghost predicate SlashAt(t: string, m: int) {
    && StartsWith(t, UrlPrefix)
    && |UrlPrefix| < m < |t| - 1
    && t[m] == '/'
    && AllPath(t[|UrlPrefix|..m])
    && AllPath(t[m + 1..])
  }

  /** `t` is in the language of the pattern. */
  ghost predicate IsUrlText(t: string) {
    exists m :: SlashAt(t, m)
  }

  /** The end of the longest run of path characters that starts at `i`. */
  function RunEnd(s: string, i: nat): (j: nat)
    requires i <= |s|
    ensures i <= j <= |s|
    ensures AllPath(s[i..j])
    ensures j < |s| ==> !IsPathChar(s[j])
    decreases |s| - i
  {
    if i < |s| && IsPathChar(s[i]) then
      var j := RunEnd(s, i + 1);
      assert s[i..j] == [s[i]] + s[i + 1..j];
      j
    else i
  }

  /** No path character follows a full run, so a run ends where a non-path character stands. */
  lemma RunEndAt(s: string, i: nat, k: nat)
    requires i <= k < |s| && AllPath(s[i..k]) && !IsPathChar(s[k])
    ensures RunEnd(s, i) == k
  {
  }

  lemma RunEndCovers(s: string, i: nat, k: nat)
    requires i <= k <= |s| && AllPath(s[i..k])
    ensures k <= RunEnd(s, i)
  {
  }

  /**
   * The end of the match of the pattern that starts at `i`, if one does. With
   * `/` outside the character class, backtracking cannot shorten the owner
   * part, and both greedy parts take their whole runs.
   */
  function MatchAt(s: string, i: nat): (e: Option<nat>)
    requires i <= |s|
    ensures e.Some? ==> i < e.value <= |s|
  {
    var p := i + |UrlPrefix|;
    if p <= |s| && s[i..p] == UrlPrefix then
      var m := RunEnd(s, p);
      if p < m < |s| && s[m] == '/' then
        var e := RunEnd(s, m + 1);
        if m + 1 < e then Some(e) else None
      else None
    else None
  }

  /** A match found at `i` is a whole match of the pattern. */
  lemma MatchAtIsUrl(s: string, i: nat)
    requires i <= |s| && MatchAt(s, i).Some?
    ensures IsUrlText(s[i..MatchAt(s, i).value])
  {
    var p := i + |UrlPrefix|;
    var m := RunEnd(s, p);
    var e := MatchAt(s, i).value;
    var t := s[i..e];
    assert t[..|UrlPrefix|] == s[i..p];
    assert t[|UrlPrefix|..m - i] == s[p..m];
    assert t[m - i + 1..] == s[m + 1..e];
    assert SlashAt(t, m - i);
  }

  lemma SliceInSlice(s: string, i: nat, e: nat, a: nat, b: nat)
    requires i <= e <= |s| && a <= b <= e - i
    ensures s[i..e][a..b] == s[i + a..i + b]
  {
    assert forall k :: 0 <= k < b - a ==> s[i..e][a..b][k] == s[i + a + k];
  }

  /** Of every text at `i` in the pattern's language, the match is the longest; none when there is none. */
  lemma MatchAtIsLongest(s: string, i: nat, e: nat)
    requires i <= e <= |s| && IsUrlText(s[i..e])
    ensures MatchAt(s, i).Some? && e <= MatchAt(s, i).value
  {
    var t := s[i..e];
    var m :| SlashAt(t, m);
    var p := i + |UrlPrefix|;
    SliceInSlice(s, i, e, 0, |UrlPrefix|);
    SliceInSlice(s, i, e, |UrlPrefix|, m);
    SliceInSlice(s, i, e, m + 1, e - i);
    assert s[i..p] == UrlPrefix;
    assert AllPath(s[p..i + m]);
    assert s[i + m] == '/' by {
      assert t[m] == s[i + m];
    }
    assert AllPath(s[i + m + 1..e]);
    RunEndAt(s, p, i + m);
    RunEndCovers(s, i + m + 1, e);
  }

  /** Python's `re.search(pattern, s[from:])`, as the start and end of the leftmost match. */
  function SearchFrom(s: string, from: nat): (r: Option<(nat, nat)>)
    requires from <= |s|
    ensures r.Some? ==> from <= r.value.0 <= |s| && MatchAt(s, r.value.0) == Some(r.value.1)
    ensures forall q :: from <= q <= |s| && (r.None? || q < r.value.0) ==> MatchAt(s, q).None?
    decreases |s| - from
  {
    match MatchAt(s, from)
    case Some(e) => Some((from, e))
    case None => if from < |s| then SearchFrom(s, from + 1) else None
  }

  /** `re.search(pattern, s)` */
  function Search(s: string): Option<(nat, nat)> {
    SearchFrom(s, 0)
  }

  /**
   * `pattern.finditer(s)` from index `from`: the leftmost match, then the
   * leftmost one from its end, and so on; the matches are in order and do not
   * overlap.
   */
  ghost function FindAll(s: string, from: nat): (ms: seq<(nat, nat)>)
    requires from <= |s|
    ensures forall k :: 0 <= k < |ms| ==> from <= ms[k].0 < ms[k].1 <= |s| && MatchAt(s, ms[k].0) == Some(ms[k].1)
    ensures forall k :: 0 < k < |ms| ==> ms[k - 1].1 <= ms[k].0
    decreases |s| - from
  {
    match SearchFrom(s, from)
    case None => []
    case Some(m) =>
      var rest := FindAll(s, m.1);
      assert forall k :: 0 < k < |rest| + 1 ==> ([m] + rest)[k] == rest[k - 1];
      [m] + rest
  }

  /**
   * No match starts outside the ones `finditer` yields: before the first, or
   * in a gap after one. (A match can start inside an earlier one, as the text
   * `https://github.com/a/https://github.com/b/c` shows; those are skipped.)
   */
  lemma {:induction false} FindAllSkipsNothing(s: string, from: nat, q: nat)
    requires from <= q <= |s|
    requires forall k :: 0 <= k < |FindAll(s, from)| ==> !(FindAll(s, from)[k].0 <= q < FindAll(s, from)[k].1)
    ensures MatchAt(s, q).None?
    decreases |s| - from
  {
    var ms := FindAll(s, from);
    match SearchFrom(s, from)
    case None =>
    case Some(m) =>
      assert ms[0] == m;
      if m.1 <= q {
        var rest := FindAll(s, m.1);
        assert forall k :: 0 <= k < |rest| ==> rest[k] == ms[k + 1];
        FindAllSkipsNothing(s, m.1, q);
      }
  }

  /** The canonical form of an address: `url.lower().rstrip("/")`. */
  function Canonical(url: string): string {
    RStripChar(Lower(url), '/')
  }

  /**
   * The canonical forms of the matches `finditer` yields from `from` on:
   * of the leftmost match, then of those from its end.
   */
  ghost function MatchedUrls(s: string, from: nat): set<string>
    requires from <= |s|
    decreases |s| - from
  {
    match SearchFrom(s, from)
    case None => {}
    case Some(m) => {Canonical(s[m.0..m.1])} + MatchedUrls(s, m.1)
  }

  /** The same matches as `FindAll`: each canonical form is that of one of them. */
  lemma {:induction false} MatchedUrlsOfFindAll(s: string, from: nat, u: string) returns (k: nat)
    requires from <= |s| && u in MatchedUrls(s, from)
    ensures k < |FindAll(s, from)| && u == Canonical(s[FindAll(s, from)[k].0..FindAll(s, from)[k].1])
    decreases |s| - from
  {
    match SearchFrom(s, from)
    case Some(m) =>
      var rest := FindAll(s, m.1);
      assert FindAll(s, from) == [m] + rest;
      if u == Canonical(s[m.0..m.1]) {
        k := 0;
      } else {
        var j := MatchedUrlsOfFindAll(s, m.1, u);
        k := j + 1;
        assert FindAll(s, from)[k] == rest[j];
      }
  }

  /** A match at `i` contributes its address and the scan resumes at its end. */
  lemma MatchedUrlsHit(acc: set<string>, s: string, i: nat)
    requires i <= |s| && MatchAt(s, i).Some?
    ensures acc + {Canonical(s[i..MatchAt(s, i).value])} + MatchedUrls(s, MatchAt(s, i).value) == acc + MatchedUrls(s, i)
  {
  }

  /** With no match at `i`, the scan moves on to `i + 1`. */
  lemma MatchedUrlsMiss(s: string, i: nat)
    requires i < |s| && MatchAt(s, i).None?
    ensures MatchedUrls(s, i) == MatchedUrls(s, i + 1)
  {
  }

  lemma LowerKeepsPath(t: string)
    requires AllPath(t)
    ensures AllPath(Lower(t))
  {
  }

  lemma LowerSlice(t: string, a: nat, b: nat)
    requires a <= b <= |t|
    ensures Lower(t)[a..b] == Lower(t[a..b])
  {
  }

  lemma LowerOfPrefix()
    ensures Lower(UrlPrefix) == UrlPrefix
  {
  }

  lemma LowerTwice(t: string)
    ensures Lower(Lower(t)) == Lower(t)
  {
  }

  /** A match of the pattern ends in a path character, never in `/`. */
  lemma UrlEnd(t: string, m: int)
    requires SlashAt(t, m)
    ensures IsPathChar(t[|t| - 1]) && LowerChar(t[|t| - 1]) != '/'
  {
    assert t[|t| - 1] == t[m + 1..][|t| - m - 2];
  }

  /**
   * A matched address is its own canonical form up to case: it never ends
   * with `/`, and its lower-case form is again a match of the pattern.
   */
  lemma CanonicalOfUrl(t: string)
    requires IsUrlText(t)
    ensures Canonical(t) == Lower(t)
    ensures IsUrlText(Canonical(t)) && Lower(Canonical(t)) == Canonical(t)
  {
    var m :| SlashAt(t, m);
    var l := Lower(t);
    UrlEnd(t, m);
    assert l[|l| - 1] != '/';
    assert Canonical(t) == l;
    LowerSlice(t, 0, |UrlPrefix|);
    LowerOfPrefix();
    LowerSlice(t, |UrlPrefix|, m);
    LowerSlice(t, m + 1, |t|);
    LowerKeepsPath(t[|UrlPrefix|..m]);
    LowerKeepsPath(t[m + 1..]);
    assert SlashAt(l, m);
    LowerTwice(t);
  }
}
