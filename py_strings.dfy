/** The optional value returned where Python returns `None` or raises and the caller recovers. */
module Options {
  datatype Option<+T> = None | Some(value: T)
}

/**
 * The Python `str` operations the discovery script is built from, stated on
 * `seq<char>`: `find`, `strip`/`lstrip`/`rstrip`, `split`/`join`, `replace`,
 * `lower`, `startswith`, `str(int)` and `int(str)`.
 */
module PyStrings {
  import opened Options

  /** The characters for which Python's `str.isspace()` holds; `strip()` removes exactly these. */
  predicate IsSpace(c: char) {
    ('\t' <= c <= '\r') || ('\U{1C}' <= c <= '\U{1F}') || c == ' '
    || c == '\U{85}' || c == '\U{A0}' || c == '\U{1680}'
    || ('\U{2000}' <= c <= '\U{200A}') || c == '\U{2028}' || c == '\U{2029}'
    || c == '\U{202F}' || c == '\U{205F}' || c == '\U{3000}'
  }

  predicate AllSpace(s: string) {
    forall i :: 0 <= i < |s| ==> IsSpace(s[i])
  }

  /** Neither end of `s` is whitespace: what `strip()` produces. */
  predicate IsStripped(s: string) {
    s == [] || (!IsSpace(s[0]) && !IsSpace(s[|s| - 1]))
  }

  /** `s.lstrip()`: the suffix left after dropping leading whitespace. */
  function LStrip(s: string): (r: string)
    ensures |r| <= |s| && r == s[|s| - |r|..]
    ensures r != [] ==> !IsSpace(r[0])
  {
    if s != [] && IsSpace(s[0]) then LStrip(s[1..]) else s
  }

  /** `s.rstrip()`: the prefix left after dropping trailing whitespace. */
  function RStrip(s: string): (r: string)
    ensures |r| <= |s| && r == s[..|r|]
    ensures r != [] ==> !IsSpace(r[|r| - 1])
  {
    if s != [] && IsSpace(s[|s| - 1]) then RStrip(s[..|s| - 1]) else s
  }

  /** `s.strip()` */
  function Strip(s: string): (r: string)
    ensures IsStripped(r)
    ensures IsStripped(s) ==> r == s
  {
    RStrip(LStrip(s))
  }

  /** `strip()` only removes characters: one absent from `s` is absent from `s.strip()`. */
  lemma StripAvoids(s: string, c: char)
    requires c !in s
    ensures c !in Strip(s)
  {
    var l := LStrip(s);
    var r := RStrip(l);
    forall i | 0 <= i < |r| ensures r[i] != c {
      assert r[i] == l[i] == s[|s| - |l| + i];
    }
  }

  lemma {:induction false} LStripSpaces(a: string, t: string)
    requires AllSpace(a) && (t == [] || !IsSpace(t[0]))
    ensures LStrip(a + t) == t
  {
    if a == [] {
      assert a + t == t;
    } else {
      assert (a + t)[1..] == a[1..] + t;
      LStripSpaces(a[1..], t);
    }
  }

  lemma {:induction false} RStripSpaces(t: string, b: string)
    requires AllSpace(b) && (t == [] || !IsSpace(t[|t| - 1]))
    ensures RStrip(t + b) == t
  {
    if b == [] {
      assert t + b == t;
    } else {
      assert (t + b)[..|t + b| - 1] == t + b[..|b| - 1];
      RStripSpaces(t, b[..|b| - 1]);
    }
  }

  /** Whitespace around a stripped text is exactly what `strip()` removes. */
  lemma StripBetweenSpaces(a: string, t: string, b: string)
    requires AllSpace(a) && AllSpace(b) && IsStripped(t)
    ensures Strip(a + t + b) == t
  {
    assert a + t + b == a + (t + b);
    if t == [] {
      assert t + b == b;
      assert AllSpace(a + b);
      RStripSpaces([], a + b);
      assert LStrip(a + b) == RStrip([] + (a + b)) == [] by {
        assert [] + (a + b) == a + b;
      }
    } else {
      LStripSpaces(a, t + b);
      RStripSpaces(t, b);
    }
  }

  /** `s.rstrip(c)` for a single character `c`. */
  function RStripChar(s: string, c: char): (r: string)
    ensures |r| <= |s| && r == s[..|r|]
    ensures r == [] || r[|r| - 1] != c
    ensures forall i :: |r| <= i < |s| ==> s[i] == c
  {
    if s != [] && s[|s| - 1] == c then RStripChar(s[..|s| - 1], c) else s
  }

  /** `s.startswith(p)` */
  predicate StartsWith(s: string, p: string) {
    |p| <= |s| && s[..|p|] == p
  }

  /** `sub` occurs in `s` at index `i`. */
  predicate OccursAt(s: string, sub: string, i: nat) {
    i + |sub| <= |s| && s[i..i + |sub|] == sub
  }

  /** `s.find(sub, i)`: the least index from `i` on where `sub` occurs, or -1. */
  function FindFrom(s: string, sub: string, i: nat): (r: int)
    requires i <= |s|
    ensures r == -1 || (i <= r <= |s| - |sub| && OccursAt(s, sub, r))
    ensures forall j :: i <= j && (r == -1 || j < r) ==> !OccursAt(s, sub, j)
    decreases |s| - i
  {
    if i + |sub| > |s| then -1
    else if s[i..i + |sub|] == sub then i
    else FindFrom(s, sub, i + 1)
  }

  /** `s.find(sub)` */
  function Find(s: string, sub: string): (r: int)
    ensures r == -1 || (0 <= r <= |s| - |sub| && OccursAt(s, sub, r))
    ensures forall j: nat :: (r == -1 || j < r) ==> !OccursAt(s, sub, j)
  {
    FindFrom(s, sub, 0)
  }

  /** A text never holds a longer one. */
  lemma FindInShorter(s: string, sub: string)
    requires |s| < |sub|
    ensures Find(s, sub) == -1
  {
  }

  /** `sub in s` */
  ghost predicate Contains(s: string, sub: string) {
    exists m: nat :: OccursAt(s, sub, m)
  }

  /** The first occurrence from `i` on is the one `find` reports. */
  lemma {:induction false} FindFromIs(s: string, sub: string, i: nat, p: nat)
    requires i <= p && OccursAt(s, sub, p)
    requires forall j: nat :: i <= j < p ==> !OccursAt(s, sub, j)
    ensures FindFrom(s, sub, i) == p
    decreases p - i
  {
    if i < p {
      assert !OccursAt(s, sub, i);
      FindFromIs(s, sub, i + 1, p);
    }
  }

  /** On two texts that agree up to the end of the first occurrence of `sub` in one, `find` gives the same index. */
  lemma FindOnCommonPrefix(x: string, y: string, sub: string)
    requires Find(x, sub) != -1
    requires Find(x, sub) + |sub| <= |y| && x[..Find(x, sub) + |sub|] == y[..Find(x, sub) + |sub|]
    ensures Find(y, sub) == Find(x, sub)
  {
    var p := Find(x, sub);
    var n := p + |sub|;
    assert y[p..n] == y[..n][p..n] == x[..n][p..n] == x[p..n];
    forall j: nat | j < p ensures !OccursAt(y, sub, j) {
      assert !OccursAt(x, sub, j);
      if OccursAt(y, sub, j) {
        forall t | 0 <= t < |sub| ensures x[j + t] == sub[t] {
          assert x[j + t] == x[..n][j + t] == y[..n][j + t] == y[j + t];
          assert y[j..j + |sub|][t] == y[j + t];
        }
      }
    }
    FindFromIs(y, sub, 0, p);
  }

  lemma OccurrenceChar(s: string, sub: string, m: nat, k: nat)
    requires OccursAt(s, sub, m) && k < |sub|
    ensures s[m + k] == sub[k]
  {
    assert s[m..m + |sub|][k] == s[m + k];
  }

  /** An occurrence of `sub` in `a + [c] + b` that does not touch `c` lies in `a` or in `b`. */
  lemma OccurrenceAroundChar(a: string, c: char, b: string, sub: string, m: nat)
    requires c !in sub && OccursAt(a + [c] + b, sub, m)
    ensures (m + |sub| <= |a| && OccursAt(a, sub, m)) || (m > |a| && OccursAt(b, sub, m - |a| - 1))
  {
    var x := a + [c] + b;
    if m + |sub| <= |a| {
      assert x[m..m + |sub|] == a[m..m + |sub|];
    } else if m > |a| {
      assert x[m..m + |sub|] == b[m - |a| - 1..m - |a| - 1 + |sub|];
    } else {
      OccurrenceChar(x, sub, m, |a| - m);
      assert false;
    }
  }

  /** A text without the separator that occurs in no piece occurs nowhere in the joined text. */
  lemma {:induction false} JoinAvoids(parts: seq<string>, sep: char, sub: string)
    requires sep !in sub
    requires forall k :: 0 <= k < |parts| ==> !Contains(parts[k], sub)
    ensures |parts| > 0 ==> !Contains(Join(parts, sep), sub)
  {
    if |parts| > 1 {
      JoinAvoids(parts[1..], sep, sub);
      var rest := Join(parts[1..], sep);
      if m: nat :| OccursAt(Join(parts, sep), sub, m) {
        OccurrenceAroundChar(parts[0], sep, rest, sub, m);
      }
    }
  }

  /** An occurrence in a slice is an occurrence in the whole text, inside the slice. */
  lemma OccursInSlice(s: string, i: nat, j: nat, sub: string, m: nat)
    requires i <= j <= |s| && OccursAt(s[i..j], sub, m)
    ensures OccursAt(s, sub, i + m) && i + m + |sub| <= j
  {
    assert m + |sub| <= j - i;
    forall t | 0 <= t < |sub| ensures s[i + m..i + m + |sub|][t] == sub[t] {
      assert s[i..j][m..m + |sub|][t] == s[i..j][m + t] == s[i + m + t];
    }
    assert s[i + m..i + m + |sub|] == sub;
  }

  /** A text that does not hold `sub` holds it in no slice either. */
  lemma SliceAvoids(s: string, i: nat, j: nat, sub: string)
    requires i <= j <= |s| && !Contains(s, sub)
    ensures !Contains(s[i..j], sub)
  {
    if m: nat :| OccursAt(s[i..j], sub, m) {
      OccursInSlice(s, i, j, sub, m);
    }
  }

  /** `strip()` only cuts the ends: what `s.strip()` holds, `s` holds. */
  lemma StripKeepsAvoiding(s: string, sub: string)
    requires !Contains(s, sub)
    ensures !Contains(Strip(s), sub)
  {
    var l := LStrip(s);
    SliceAvoids(s, |s| - |l|, |s|, sub);
    assert l == s[|s| - |l|..|s|];
    SliceAvoids(l, 0, |RStrip(l)|, sub);
    assert Strip(s) == l[0..|RStrip(l)|];
  }

  /** The text before the first occurrence of `sub` holds none. */
  lemma BeforeFindAvoids(s: string, sub: string, a: nat)
    requires sub != [] && Find(s, sub) != -1 && a <= Find(s, sub)
    ensures !Contains(s[a..Find(s, sub)], sub)
  {
    var e := Find(s, sub);
    if m: nat :| OccursAt(s[a..e], sub, m) {
      OccursInSlice(s, a, e, sub, m);
    }
  }

  /** A text holds no `sub` whose first character it lacks. */
  lemma AvoidsWithoutFirst(s: string, sub: string)
    requires sub != [] && sub[0] !in s
    ensures !Contains(s, sub)
  {
    if m: nat :| OccursAt(s, sub, m) {
      OccurrenceChar(s, sub, m, 0);
    }
  }

  /** Two texts without `sub`, joined by a character `sub` lacks, hold no `sub`. */
  lemma AvoidsAroundChar(a: string, c: char, b: string, sub: string)
    requires c !in sub && !Contains(a, sub) && !Contains(b, sub)
    ensures !Contains(a + [c] + b, sub)
  {
    if m: nat :| OccursAt(a + [c] + b, sub, m) {
      OccurrenceAroundChar(a, c, b, sub, m);
    }
  }

  /** One space on each side of a text without `sub` adds no `sub` when `sub` neither starts nor ends with a space. */
  lemma AvoidsPadded(t: string, sub: string)
    requires sub != [] && sub[0] != ' ' && sub[|sub| - 1] != ' ' && !Contains(t, sub)
    ensures !Contains(" " + t + " ", sub)
  {
    var x := " " + t + " ";
    if m: nat :| OccursAt(x, sub, m) {
      OccurrenceChar(x, sub, m, 0);
      OccurrenceChar(x, sub, m, |sub| - 1);
      assert 1 <= m && m + |sub| <= |t| + 1;
      assert x[m..m + |sub|] == t[m - 1..m - 1 + |sub|];
      assert OccursAt(t, sub, m - 1);
    }
  }

  /** A piece of a joined text is a slice of it: an occurrence in the piece is one in the whole. */
  lemma {:induction false} ContainsOfPart(parts: seq<string>, sep: char, k: nat, sub: string)
    requires k < |parts| && Contains(parts[k], sub)
    ensures Contains(Join(parts, sep), sub)
  {
    var m: nat :| OccursAt(parts[k], sub, m);
    if |parts| > 1 {
      var whole := Join(parts, sep);
      var rest := Join(parts[1..], sep);
      assert whole == parts[0] + [sep] + rest;
      if k == 0 {
        assert whole[..|parts[0]|] == parts[0];
        OccursInSlice(whole, 0, |parts[0]|, sub, m);
      } else {
        ContainsOfPart(parts[1..], sep, k - 1, sub);
        var m': nat :| OccursAt(rest, sub, m');
        assert whole[|parts[0]| + 1..|whole|] == rest;
        OccursInSlice(whole, |parts[0]| + 1, |whole|, sub, m');
      }
    }
  }

  /** Python's `s[a:b]` for indices inside `s`: empty when `a` is past `b`. */
  function Slice(s: string, a: nat, b: nat): (r: string)
    requires a <= |s| && b <= |s|
    ensures a <= b ==> r == s[a..b]
    ensures b < a ==> r == []
  {
    if a <= b then s[a..b] else []
  }

  /** `sep.join(parts)` */
  function Join(parts: seq<string>, sep: char): string {
    if |parts| == 0 then []
    else if |parts| == 1 then parts[0]
    else parts[0] + [sep] + Join(parts[1..], sep)
  }

  /** `s.split(sep)`: the pieces between the occurrences of `sep`; joining them back gives `s`. */
  function Split(s: string, sep: char): (parts: seq<string>)
    ensures |parts| >= 1
    ensures forall i :: 0 <= i < |parts| ==> sep !in parts[i]
    ensures Join(parts, sep) == s
  {
    if s == [] then [[]]
    else
      var rest := Split(s[1..], sep);
      if s[0] == sep then
        assert [sep] + Join(rest, sep) == s;
        [[]] + rest
      else
        var parts := [[s[0]] + rest[0]] + rest[1..];
        assert Join(parts, sep) == [s[0]] + Join(rest, sep) by {
          if |rest| > 1 {
            assert parts[1..] == rest[1..];
          }
        }
        parts
  }

  lemma {:induction false} SplitNoSep(x: string, sep: char)
    requires sep !in x
    ensures Split(x, sep) == [x]
  {
    if x != [] {
      SplitNoSep(x[1..], sep);
      assert [x[0]] + x[1..] == x;
    }
  }

  lemma {:induction false} SplitConcat(x: string, y: string, sep: char)
    requires sep !in x
    ensures Split(x + [sep] + y, sep) == [x] + Split(y, sep)
  {
    if x == [] {
      assert (x + [sep] + y)[1..] == y;
    } else {
      assert (x + [sep] + y)[1..] == x[1..] + [sep] + y;
      SplitConcat(x[1..], y, sep);
      assert [x[0]] + x[1..] == x;
    }
  }

  /** Splitting at a separator between two texts splits each of them. */
  lemma {:induction false} SplitAround(x: string, y: string, sep: char)
    ensures Split(x + [sep] + y, sep) == Split(x, sep) + Split(y, sep)
  {
    if x == [] {
      assert (x + [sep] + y)[1..] == y;
    } else {
      assert (x + [sep] + y)[1..] == x[1..] + [sep] + y;
      SplitAround(x[1..], y, sep);
    }
  }

  /** Splitting undoes joining when no piece holds the separator. */
  lemma {:induction false} SplitJoin(parts: seq<string>, sep: char)
    requires |parts| >= 1
    requires forall i :: 0 <= i < |parts| ==> sep !in parts[i]
    ensures Split(Join(parts, sep), sep) == parts
  {
    if |parts| == 1 {
      SplitNoSep(parts[0], sep);
    } else {
      SplitJoin(parts[1..], sep);
      SplitConcat(parts[0], Join(parts[1..], sep), sep);
    }
  }

  /** `s.replace(a, b)` for single characters `a` and `b`. */
  function ReplaceChar(s: string, a: char, b: char): (r: string)
    ensures |r| == |s|
    ensures a != b ==> a !in r
    ensures forall i :: 0 <= i < |s| ==> r[i] == (if s[i] == a then b else s[i])
  {
    seq(|s|, i requires 0 <= i < |s| => if s[i] == a then b else s[i])
  }

  /** `s.replace(c, "")`: `s` with every `c` deleted and the other characters kept in order. */
  function RemoveChar(s: string, c: char): (r: string)
    ensures c !in r
    ensures c !in s ==> r == s
  {
    if s == [] then []
    else if s[0] == c then RemoveChar(s[1..], c)
    else [s[0]] + RemoveChar(s[1..], c)
  }

  /** Deleting `c` keeps every other character as many times as it occurs. */
  lemma {:induction false} RemoveCharKeeps(s: string, c: char)
    ensures multiset(RemoveChar(s, c)) == multiset(s)[c := 0]
  {
    if s != [] {
      RemoveCharKeeps(s[1..], c);
      assert s == [s[0]] + s[1..];
    }
  }

  /** Deleting a character works piece by piece: the kept characters stay in their order. */
  lemma {:induction false} RemoveCharConcat(a: string, b: string, c: char)
    ensures RemoveChar(a + b, c) == RemoveChar(a, c) + RemoveChar(b, c)
  {
    if a != [] {
      assert (a + b)[1..] == a[1..] + b;
      RemoveCharConcat(a[1..], b, c);
    } else {
      assert a + b == b;
    }
  }

  /** A `c` in front is deleted. */
  lemma RemoveCharHead(c: char, b: string)
    ensures RemoveChar([c] + b, c) == RemoveChar(b, c)
  {
    assert ([c] + b)[1..] == b;
  }

  /** Deleting the one `c` between two texts without it leaves the two texts. */
  lemma RemoveCharBetween(a: string, c: char, b: string)
    requires c !in a && c !in b
    ensures RemoveChar(a + [c] + b, c) == a + b
  {
    RemoveCharHead(c, b);
    RemoveCharConcat(a, [c] + b, c);
    assert a + [c] + b == a + ([c] + b);
  }

  /** `c.lower()` for ASCII letters; other characters are left alone. */
  function LowerChar(c: char): char {
    if 'A' <= c <= 'Z' then (c as int + 32) as char else c
  }

  /** `s.lower()` */
  function Lower(s: string): (r: string)
    ensures |r| == |s|
  {
    seq(|s|, i requires 0 <= i < |s| => LowerChar(s[i]))
  }

  predicate IsDigit(c: char) {
    '0' <= c <= '9'
  }

  predicate AllDigits(s: string) {
    forall i :: 0 <= i < |s| ==> IsDigit(s[i])
  }

  function DigitChar(d: nat): (c: char)
    requires d < 10
    ensures IsDigit(c)
  {
    ('0' as int + d) as char
  }

  function DigitValue(c: char): (d: nat)
    requires IsDigit(c)
    ensures d < 10 && DigitChar(d) == c
  {
    c as int - '0' as int
  }

  /** `str(n)` for a non-negative `n`. */
  function NatToString(n: nat): (r: string)
    ensures r != [] && AllDigits(r)
    ensures |r| > 1 ==> r[0] != '0'
    ensures r[0] == '0' <==> n == 0
  {
    if n < 10 then [DigitChar(n)] else NatToString(n / 10) + [DigitChar(n % 10)]
  }

  /** `str(n)`: a sign only for a negative number, and no leading zero except in `"0"` itself (so no `"-0"`). */
  function IntToString(n: int): (r: string)
    ensures r != [] && IsDigit(r[|r| - 1])
    ensures forall i :: 0 <= i < |r| ==> IsDigit(r[i]) || (i == 0 && r[i] == '-')
    ensures r[0] == '-' <==> n < 0
    ensures n >= 0 && |r| > 1 ==> r[0] != '0'
    ensures n < 0 ==> |r| >= 2 && r[1] != '0'
  {
    if n < 0 then ['-'] + NatToString(-n) else NatToString(n)
  }

  /** The value of a decimal numeral. */
  function DigitsValue(s: string): nat
    requires AllDigits(s)
  {
    if s == [] then 0 else DigitsValue(s[..|s| - 1]) * 10 + DigitValue(s[|s| - 1])
  }

  /** Decimal digits with single underscores between them, as Python's `int()` accepts. */
  predicate IsDigitGroups(s: string) {
    && s != []
    && IsDigit(s[0]) && IsDigit(s[|s| - 1])
    && (forall i :: 0 <= i < |s| ==> IsDigit(s[i]) || s[i] == '_')
    && (forall i :: 0 <= i < |s| - 1 ==> s[i] == '_' ==> s[i + 1] != '_')
  }

  lemma GroupsLeaveDigits(s: string)
    requires IsDigitGroups(s)
    ensures AllDigits(RemoveChar(s, '_'))
  {
    var d := RemoveChar(s, '_');
    RemoveCharKeeps(s, '_');
    forall i | 0 <= i < |d| ensures IsDigit(d[i]) {
      assert d[i] in multiset(d);
      assert d[i] in multiset(s) && d[i] != '_';
    }
  }

  /** `int()` of digit groups: `None` unless `b` is one. */
  function ParseGroups(b: string): Option<nat> {
    if IsDigitGroups(b) then
      GroupsLeaveDigits(b);
      Some(DigitsValue(RemoveChar(b, '_')))
    else None
  }

  /**
   * The characters `int()` skips around a number: Python's whitespace except
   * U+001C to U+001F. CPython's integer parser keeps every character below
   * U+007F as it is and skips only the ASCII space and tab to carriage return;
   * other whitespace it skips only once it has turned it into a space, and it
   * does that only from U+007F on.
   */
  predicate IsIntSpace(c: char) {
    IsSpace(c) && !('\U{1C}' <= c <= '\U{1F}')
  }

  /** The suffix of `s` left after dropping the leading characters `int()` skips. */
  function IntLStrip(s: string): (r: string)
    ensures |r| <= |s| && r == s[|s| - |r|..]
    ensures r != [] ==> !IsIntSpace(r[0])
    ensures forall i :: 0 <= i < |s| - |r| ==> IsIntSpace(s[i])
  {
    if s != [] && IsIntSpace(s[0]) then IntLStrip(s[1..]) else s
  }

  /** The prefix of `s` left after dropping the trailing characters `int()` skips. */
  function IntRStrip(s: string): (r: string)
    ensures |r| <= |s| && r == s[..|r|]
    ensures r != [] ==> !IsIntSpace(r[|r| - 1])
    ensures forall i :: |r| <= i < |s| ==> IsIntSpace(s[i])
  {
    if s != [] && IsIntSpace(s[|s| - 1]) then IntRStrip(s[..|s| - 1]) else s
  }

  /** The text `int()` reads its number from: `s` without the whitespace it skips at either end. */
  function IntStrip(s: string): (r: string)
    ensures r == [] || (!IsIntSpace(r[0]) && !IsIntSpace(r[|r| - 1]))
    ensures IsStripped(s) ==> r == s
  {
    IntRStrip(IntLStrip(s))
  }

  /** `int()` of a text made only of the whitespace it skips, or of nothing, raises `ValueError`. */
  lemma ParseIntOfBlank(a: string)
    requires forall i :: 0 <= i < |a| ==> IsIntSpace(a[i])
    ensures IntStrip(a) == [] && ParseInt(a) == None
  {
    IntLStripSpaces(a, []);
    assert a + [] == a;
  }

  /**
   * `int(s)` in base 10: surrounding whitespace, an optional sign, then digit
   * groups; `None` where Python raises `ValueError`.
   */
  function ParseInt(s: string): Option<int> {
    ParseNumeral(IntStrip(s))
  }

  /**
   * `int()` does not skip U+001C to U+001F, although `strip()` does: a cell
   * ` ,\x1c5 ` leaves `"\x1c5"` once stripped and rid of its comma, and that
   * is no number.
   */
  lemma ParseIntKeepsSeparators()
    ensures ParseInt("\U{1C}5") == None
  {
    var t := "\U{1C}5";
    assert !IsIntSpace(t[0]) && !IsIntSpace(t[1]);
    assert IntStrip(t) == t;
    assert !IsDigit(t[0]);
    assert ParseGroups(t) == None;
  }

  lemma {:induction false} IntLStripSpaces(a: string, t: string)
    requires forall i :: 0 <= i < |a| ==> IsIntSpace(a[i])
    requires t == [] || !IsIntSpace(t[0])
    ensures IntLStrip(a + t) == t
  {
    if a == [] {
      assert a + t == t;
    } else {
      assert (a + t)[1..] == a[1..] + t;
      IntLStripSpaces(a[1..], t);
    }
  }

  lemma {:induction false} IntRStripSpaces(t: string, b: string)
    requires forall i :: 0 <= i < |b| ==> IsIntSpace(b[i])
    requires t == [] || !IsIntSpace(t[|t| - 1])
    ensures IntRStrip(t + b) == t
  {
    if b == [] {
      assert t + b == t;
    } else {
      assert (t + b)[..|t + b| - 1] == t + b[..|b| - 1];
      IntRStripSpaces(t, b[..|b| - 1]);
    }
  }

  /** The whitespace `int()` skips around a non-empty text that neither starts nor ends with it is exactly what it drops. */
  lemma IntStripBetween(a: string, t: string, b: string)
    requires forall i :: 0 <= i < |a| ==> IsIntSpace(a[i])
    requires forall i :: 0 <= i < |b| ==> IsIntSpace(b[i])
    requires t != [] && !IsIntSpace(t[0]) && !IsIntSpace(t[|t| - 1])
    ensures IntStrip(a + t + b) == t
  {
    assert a + t + b == a + (t + b);
    IntLStripSpaces(a, t + b);
    IntRStripSpaces(t, b);
  }

  /** `int()` skips the ASCII space and tab around a number. */
  lemma ParseIntSkipsTab()
    ensures ParseInt(" 5\t") == Some(5)
  {
    var a, t, b := " ", "5", "\t";
    assert IsIntSpace(a[0]) && IsIntSpace(b[0]) && !IsIntSpace(t[0]);
    IntStripBetween(a, t, b);
    assert a + t + b == " 5\t";
    DigitsAreGroups("5");
    assert DigitsValue("5") == 5;
    assert ParseNumeral("5") == Some(5);
  }

  /** `int()` of an already stripped text: an optional sign and digit groups. */
  function ParseNumeral(t: string): Option<int> {
    if t != [] && (t[0] == '+' || t[0] == '-') then
      match ParseGroups(t[1..])
      case Some(v) => var w: int := v; Some(if t[0] == '-' then -w else w)
      case None => None
    else
      match ParseGroups(t)
      case Some(v) => Some(v)
      case None => None
  }

  lemma {:induction false} DigitsValueOfNat(n: nat)
    ensures DigitsValue(NatToString(n)) == n
  {
    var s := NatToString(n);
    if n >= 10 {
      assert s[..|s| - 1] == NatToString(n / 10);
      DigitsValueOfNat(n / 10);
    }
  }

  lemma DigitsAreGroups(d: string)
    requires d != [] && AllDigits(d)
    ensures ParseGroups(d) == Some(DigitsValue(d))
  {
    assert '_' !in d;
  }

  lemma ParseNumeralUnsigned(t: string, v: nat)
    requires t != [] && IsDigit(t[0]) && ParseGroups(t) == Some(v)
    ensures ParseNumeral(t) == Some(v as int)
  {
  }

  lemma ParseNumeralNegative(t: string, v: nat)
    requires t != [] && t[0] == '-' && ParseGroups(t[1..]) == Some(v)
    ensures ParseNumeral(t) == Some(-(v as int))
  {
  }

  lemma ParseNumeralOfNat(m: nat)
    ensures ParseNumeral(NatToString(m)) == Some(m as int)
  {
    var digits := NatToString(m);
    DigitsValueOfNat(m);
    DigitsAreGroups(digits);
    ParseNumeralUnsigned(digits, m);
  }

  lemma ParseNumeralOfNegative(m: nat)
    ensures ParseNumeral(['-'] + NatToString(m)) == Some(-(m as int))
  {
    var digits := NatToString(m);
    DigitsValueOfNat(m);
    DigitsAreGroups(digits);
    var t := ['-'] + digits;
    assert t[1..] == digits;
    ParseNumeralNegative(t, m);
  }

  lemma IntToStringIsStripped(n: int)
    ensures IsStripped(IntToString(n))
  {
    var s := IntToString(n);
    assert IsDigit(s[0]) || s[0] == '-';
  }

  lemma ParseIntOfStripped(t: string)
    requires IsStripped(t)
    ensures ParseInt(t) == ParseNumeral(t)
  {
  }

  lemma ParseNumeralOfInt(n: int)
    ensures ParseNumeral(IntToString(n)) == Some(n)
  {
    if n < 0 {
      var m: nat := -n;
      ParseNumeralOfNegative(m);
      assert IntToString(n) == ['-'] + NatToString(m);
    } else {
      ParseNumeralOfNat(n);
      assert IntToString(n) == NatToString(n);
    }
  }

  /** `int(str(n)) == n` */
  lemma ParseIntToString(n: int)
    ensures ParseInt(IntToString(n)) == Some(n)
  {
    ParseNumeralOfInt(n);
    IntToStringIsStripped(n);
    ParseIntOfStripped(IntToString(n));
  }

  /** `int()` accepts nothing that has no digit in it. */
  lemma ParseIntNeedsDigit(s: string)
    requires ParseInt(s).Some?
    ensures exists i :: 0 <= i < |s| && IsDigit(s[i])
  {
    var t := IntStrip(s);
    var l := IntLStrip(s);
    var k := if t[0] == '+' || t[0] == '-' then 1 else 0;
    assert IsDigit(t[k]);
    assert t[k] == l[k] == s[|s| - |l| + k];
  }
}
