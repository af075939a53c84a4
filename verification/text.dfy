/**
 * The handful of Python `str` operations the synchronisation engine is built from,
 * each with a contract that characterises it independently of how it is computed:
 * `strip()`, `in`, `startswith`/`endswith`, `split(sep)[0]`, `split(sep)[1]`,
 * `split(c)[-1]`, `split('\n')`, `count(c)`, `lower()` and integer formatting.
 */
module Text {
  import opened Wrappers

  /** The characters Python's `str.isspace()` accepts (and `str.strip()` removes). */
  predicate IsSpace(c: char) {
    || c == ' '
    || ('\t' <= c <= '\r')
    || ('\U{1C}' <= c <= '\U{1F}')
    || c == '\U{85}' || c == '\U{A0}' || c == '\U{1680}'
    || ('\U{2000}' <= c <= '\U{200A}')
    || c == '\U{2028}' || c == '\U{2029}' || c == '\U{202F}' || c == '\U{205F}' || c == '\U{3000}'
  }

  predicate AllSpace(s: string) {
    forall i :: 0 <= i < |s| ==> IsSpace(s[i])
  }

  /** The index of the first non-whitespace character of `s` at or after `i`, or `|s|`. */
  function SkipSpaces(s: string, i: nat): (n: nat)
    requires i <= |s|
    decreases |s| - i
    ensures i <= n <= |s|
    ensures forall x :: i <= x < n ==> IsSpace(s[x])
    ensures n == |s| || !IsSpace(s[n])
  {
    if i < |s| && IsSpace(s[i]) then SkipSpaces(s, i + 1) else i
  }

  /** The index just past the last non-whitespace character of `s` before `j` and at or after
      `lo`, or `lo`. */
  function SkipSpacesBack(s: string, lo: nat, j: nat): (m: nat)
    requires lo <= j <= |s|
    decreases j - lo
    ensures lo <= m <= j
    ensures forall x :: m <= x < j ==> IsSpace(s[x])
    ensures m == lo || !IsSpace(s[m - 1])
  {
    if lo < j && IsSpace(s[j - 1]) then SkipSpacesBack(s, lo, j - 1) else j
  }

  /** Python's `s.strip()`: the slice of `s` left after removing whitespace at both ends;
      it starts at the first non-whitespace character. */
  function Strip(s: string): (r: string)
    ensures r == [] || (!IsSpace(r[0]) && !IsSpace(r[|r| - 1]))
    ensures var k := SkipSpaces(s, 0);
            k + |r| <= |s| && s[k..k + |r|] == r && AllSpace(s[..k]) && AllSpace(s[k + |r|..])
  {
    var a := SkipSpaces(s, 0);
    var b := SkipSpacesBack(s, a, |s|);
    SpacesAround(s, a, b);
    s[a..b]
  }

  /** Whitespace before `a` and from `b` on, read as the two cut-off slices. */
  lemma SpacesAround(s: string, a: nat, b: nat)
    requires a <= b <= |s|
    requires forall x :: 0 <= x < a ==> IsSpace(s[x])
    requires forall x :: b <= x < |s| ==> IsSpace(s[x])
    ensures AllSpace(s[..a]) && AllSpace(s[b..])
  {
    assert forall x :: 0 <= x < |s| - b ==> s[b..][x] == s[b + x];
  }


  /** An occurrence inside a slice of `s` is an occurrence in `s`, shifted. */
  lemma OccursInSlice(s: string, p: string, a: nat, b: nat, j: int)
    requires a <= b <= |s| && OccursAt(s[a..b], p, j)
    ensures OccursAt(s, p, a + j)
  {
    forall m | 0 <= m < |p| ensures s[a + j..a + j + |p|][m] == p[m] {
      assert s[a..b][j..j + |p|][m] == p[m];
    }
  }

  /** A text that lacks `p` has no slice containing `p`. */
  lemma NotInSlice(s: string, p: string, a: nat, b: nat)
    requires a <= b <= |s| && !Contains(s, p)
    ensures !Contains(s[a..b], p)
  {
    forall j | OccursAt(s[a..b], p, j) ensures false {
      OccursInSlice(s, p, a, b, j);
    }
  }

  /** `p` occurs in `s` starting at index `i`. */
  predicate OccursAt(s: string, p: string, i: int) {
    0 <= i && i + |p| <= |s| && s[i..i + |p|] == p
  }

  /** The first occurrence of `p` in `s` at or after `k`, if any. */
  function FindFrom(s: string, p: string, k: nat): (r: Option<nat>)
    decreases |s| - k
    ensures r.Some? ==> k <= r.value && OccursAt(s, p, r.value)
    ensures r.Some? ==> forall j :: k <= j < r.value ==> !OccursAt(s, p, j)
    ensures r.None? ==> forall j :: k <= j ==> !OccursAt(s, p, j)
  {
    if k + |p| > |s| then None
    else if s[k..k + |p|] == p then Some(k)
    else FindFrom(s, p, k + 1)
  }

  /** Python's `p in s`. */
  function Contains(s: string, p: string): (r: bool)
    ensures r <==> exists j :: OccursAt(s, p, j)
  {
    FindFrom(s, p, 0).Some?
  }

  /** Python's `s.startswith(p)`. */
  predicate StartsWith(s: string, p: string) {
    |p| <= |s| && s[..|p|] == p
  }

  /** Python's `s.endswith(p)`. */
  predicate EndsWith(s: string, p: string) {
    |p| <= |s| && s[|s| - |p|..] == p
  }

  lemma StartsWithContains(s: string, p: string)
    requires StartsWith(s, p)
    ensures Contains(s, p)
  {
    assert OccursAt(s, p, 0);
  }

  /** An occurrence inside a prefix of `s` is an occurrence in `s`. */
  lemma OccursInPrefix(s: string, p: string, n: nat, j: int)
    requires n <= |s| && OccursAt(s[..n], p, j)
    ensures OccursAt(s, p, j)
  {
    assert s[..n][j..j + |p|] == s[j..j + |p|];
  }

  /** An occurrence inside a suffix of `s` is an occurrence in `s`, shifted. */
  lemma OccursInSuffix(s: string, p: string, n: nat, j: int)
    requires n <= |s| && OccursAt(s[n..], p, j)
    ensures OccursAt(s, p, n + j)
  {
    assert s[n..][j..j + |p|] == s[n + j..n + j + |p|];
  }

  /** Python's `s.split(sep)[0]`: the text before the first `sep`, or all of `s`. */
  function Before(s: string, sep: string): (r: string)
    requires |sep| > 0
    ensures |r| <= |s| && r == s[..|r|]
    ensures !Contains(r, sep)
    ensures |r| < |s| ==> OccursAt(s, sep, |r|)
  {
    match FindFrom(s, sep, 0)
    case Some(i) =>
      var r := s[..i];
      assert !Contains(r, sep) by {
        forall j | OccursAt(r, sep, j) ensures false {
          OccursInPrefix(s, sep, i, j);
        }
      }
      r
    case None => s
  }

  /** `r` is the text of `s` from index `k` up to the next `sep`, or up to the end. */
  predicate FieldAt(s: string, sep: string, k: int, r: string) {
    && 0 <= k && k + |r| <= |s| && s[k..k + |r|] == r
    && !Contains(r, sep)
    && (k + |r| == |s| || OccursAt(s, sep, k + |r|))
  }

  /** Python's `s.split(sep)[1]` where `sep` occurs in `s`: the text between the first
      occurrence of `sep` and the next one (or the end). */
  function Field1(s: string, sep: string): (r: string)
    requires |sep| > 0 && Contains(s, sep)
    ensures FieldAt(s, sep, |Before(s, sep)| + |sep|, r)
  {
    BeforeShort(s, sep);
    var k := |Before(s, sep)| + |sep|;
    BeforeOfSuffix(s, sep, k);
    Before(s[k..], sep)
  }

  /** When `sep` occurs in `s`, the text before it is followed by a whole `sep`. */
  lemma BeforeShort(s: string, sep: string)
    requires |sep| > 0 && Contains(s, sep)
    ensures |Before(s, sep)| + |sep| <= |s|
  {
    assert |Before(s, sep)| < |s|;
  }

  /** The text before the first `sep` of a suffix, read as a slice of the whole text. */
  lemma BeforeOfSuffix(s: string, sep: string, k: nat)
    requires |sep| > 0 && k <= |s|
    ensures FieldAt(s, sep, k, Before(s[k..], sep))
  {
    var rest := s[k..];
    var r := Before(rest, sep);
    assert s[k..k + |r|] == rest[..|r|];
    if |r| < |rest| {
      OccursInSuffix(s, sep, k, |r|);
    }
  }

  /** Python's `s.split(c)[-1]` for a one-character separator: the text after the last `c`. */
  function AfterLast(s: string, c: char): (r: string)
    ensures c !in r
    ensures |r| <= |s| && r == s[|s| - |r|..]
    ensures |r| < |s| ==> s[|s| - |r| - 1] == c
  {
    var k := LastCut(s, c, |s|);
    assert forall x :: 0 <= x < |s| - k ==> s[k..][x] == s[k + x];
    s[k..]
  }

  /** The index just past the last `c` of `s` before `j`, or 0 when there is none. */
  function LastCut(s: string, c: char, j: nat): (k: nat)
    requires j <= |s|
    ensures k <= j
    ensures forall x :: k <= x < j ==> s[x] != c
    ensures k == 0 || s[k - 1] == c
  {
    if j == 0 then 0 else if s[j - 1] == c then j else LastCut(s, c, j - 1)
  }


  /** Python's `s.split(c)` for a one-character separator. */
  function Split(s: string, c: char): (r: seq<string>)
    ensures |r| >= 1
    ensures forall i :: 0 <= i < |r| ==> c !in r[i]
  {
    if |s| == 0 then [""]
    else
      var rest := Split(s[1..], c);
      if s[0] == c then [""] + rest else [[s[0]] + rest[0]] + rest[1..]
  }

  /** Python's `c.join(parts)` for a one-character glue. */
  function Join(parts: seq<string>, c: char): string
    requires |parts| >= 1
  {
    if |parts| == 1 then parts[0] else parts[0] + [c] + Join(parts[1..], c)
  }

  /** Splitting and joining on the same character gives the text back. */
  lemma {:induction false} JoinSplit(s: string, c: char)
    ensures Join(Split(s, c), c) == s
  {
    if |s| > 0 {
      var rest := Split(s[1..], c);
      JoinSplit(s[1..], c);
      if s[0] == c {
        assert Split(s, c)[1..] == rest;
      } else {
        var r := Split(s, c);
        assert r[0] == [s[0]] + rest[0];
        assert r[1..] == rest[1..];
        if |rest| == 1 {
          assert Join(r, c) == [s[0]] + rest[0];
        } else {
          assert Join(rest, c) == rest[0] + [c] + Join(rest[1..], c);
        }
      }
    }
  }

  /** Splitting a separator-free piece followed by the separator. */
  lemma {:induction false} SplitPieceSep(x: string, y: string, c: char)
    requires c !in x
    ensures Split(x + [c] + y, c) == [x] + Split(y, c)
  {
    if |x| == 0 {
      assert x + [c] + y == [c] + y;
      assert ([c] + y)[1..] == y;
    } else {
      assert (x + [c] + y)[1..] == x[1..] + [c] + y;
      SplitPieceSep(x[1..], y, c);
      assert [x[0]] + x[1..] == x;
    }
  }

  /** Splitting a separator-free piece gives just that piece. */
  lemma {:induction false} SplitPiece(x: string, c: char)
    requires c !in x
    ensures Split(x, c) == [x]
  {
    if |x| > 0 {
      SplitPiece(x[1..], c);
      assert [x[0]] + x[1..] == x;
    }
  }

  /** Joining separator-free pieces and splitting again gives the pieces back. */
  lemma {:induction false} SplitJoin(parts: seq<string>, c: char)
    requires |parts| >= 1
    requires forall i :: 0 <= i < |parts| ==> c !in parts[i]
    ensures Split(Join(parts, c), c) == parts
  {
    if |parts| == 1 {
      SplitPiece(parts[0], c);
    } else {
      SplitJoin(parts[1..], c);
      SplitPieceSep(parts[0], Join(parts[1..], c), c);
      assert [parts[0]] + parts[1..] == parts;
    }
  }

  /** Python's `s.count(c)` for a single character. */
  function CountChar(s: string, c: char): nat {
    if |s| == 0 then 0 else (if s[0] == c then 1 else 0) + CountChar(s[1..], c)
  }

  /** `s.split(c)` has one more piece than `s` has separators. */
  lemma {:induction false} SplitCount(s: string, c: char)
    ensures |Split(s, c)| == CountChar(s, c) + 1
  {
    if |s| > 0 {
      SplitCount(s[1..], c);
    }
  }

  /** KELVIN SIGN, the one character outside ASCII whose lower-case form is an ASCII letter. */
  const KELVIN: char := '\U{212A}'

  /** Python's `str.lower()` on one character, as far as it yields ASCII: the upper-case ASCII
      letters and KELVIN SIGN (which becomes `k`). Any other character is kept; Python maps it
      to text that ends in a non-ASCII character (U+0130 to `i` and a combining dot), so no
      test for an ASCII suffix or substring can tell the two apart. */
  function LowerChar(c: char): char {
    if 'A' <= c <= 'Z' then (c as int - 'A' as int + 'a' as int) as char
    else if c == KELVIN then 'k'
    else c
  }

  /** Python's `s.lower()`, character by character as `LowerChar` describes. */
  function Lower(s: string): string {
    seq(|s|, i requires 0 <= i < |s| => LowerChar(s[i]))
  }

  /** A string without upper-case ASCII letters or KELVIN SIGN is its own lower-case form. */
  lemma LowerUnchanged(s: string)
    requires forall i :: 0 <= i < |s| ==> !('A' <= s[i] <= 'Z') && s[i] != KELVIN
    ensures Lower(s) == s
  {
  }

  /** A pattern holding a character the text lacks does not occur in it. */
  lemma MissingCharNotContained(s: string, p: string, c: char)
    requires c in p && c !in s
    ensures !Contains(s, p)
  {
    var m :| 0 <= m < |p| && p[m] == c;
    forall j ensures !OccursAt(s, p, j) {
      if 0 <= j && j + |p| <= |s| {
        assert s[j..j + |p|][m] == s[j + m] != p[m];
      }
    }
  }

  predicate IsDigits(s: string) {
    forall i :: 0 <= i < |s| ==> '0' <= s[i] <= '9'
  }

  /** The decimal value of a digit string (the inverse of `NatToString`). */
  function ParseNat(s: string): nat
    requires IsDigits(s)
  {
    if |s| == 0 then 0 else 10 * ParseNat(s[..|s| - 1]) + (s[|s| - 1] as int - '0' as int)
  }

  /** Python's `str(n)` / `f"{n}"` for a natural number. */
  function NatToString(n: nat): (r: string)
    ensures |r| >= 1 && IsDigits(r)
    ensures ParseNat(r) == n
  {
    var d := ('0' as int + n % 10) as char;
    if n < 10 then [d]
    else
      var prefix := NatToString(n / 10);
      var r := prefix + [d];
      assert r[..|r| - 1] == prefix;
      r
  }

  /** Different numbers print differently. */
  lemma NatToStringInjective(m: nat, n: nat)
    requires NatToString(m) == NatToString(n)
    ensures m == n
  {
  }
}
