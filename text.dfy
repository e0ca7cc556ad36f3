/**
 * The handful of Python string operations the reader relies on:
 * `''.join`, `sep.join`, `n * c`, `str.strip` and `str.title`,
 * each on `string` (a sequence of Unicode code points).
 */
module Text {

  /** `c.isspace()`: the characters Python 3 treats as whitespace, and that `str.strip()` removes. */
  predicate IsSpace(c: char) {
    ('\t' <= c <= '\r') || ('\U{1C}' <= c <= ' ') || c == '\U{85}' || c == '\U{A0}'
    || c == '\U{1680}' || ('\U{2000}' <= c <= '\U{200A}') || c == '\U{2028}' || c == '\U{2029}'
    || c == '\U{202F}' || c == '\U{205F}' || c == '\U{3000}'
  }

  predicate AllSpace(s: string) {
    forall k :: 0 <= k < |s| ==> IsSpace(s[k])
  }

  /** Python truthiness of a string: only the empty string is false. */
  predicate Truthy(s: string) {
    |s| > 0
  }

  lemma ConcatAssoc(a: string, b: string, c: string)
    ensures a + b + c == a + (b + c)
  {
  }

  lemma ConcatAssoc3(a: string, b: string, c: string, d: string)
    ensures a + b + c + d == a + (b + c + d)
  {
  }

  // ----- ''.join(parts) -----

  function Join(parts: seq<string>): string {
    if parts == [] then "" else parts[0] + Join(parts[1..])
  }

  /** Joining distributes over concatenation of the parts. */
  lemma {:induction false} JoinAppend(a: seq<string>, b: seq<string>)
    ensures Join(a + b) == Join(a) + Join(b)
  {
    if a == [] {
      assert a + b == b;
    } else {
      assert (a + b)[1..] == a[1..] + b;
      JoinAppend(a[1..], b);
    }
  }

  lemma JoinSingle(x: string)
    ensures Join([x]) == x
  {
  }

  // ----- sep.join(parts) -----

  /** `sep.join(parts)`: the parts in order with one `sep` between each neighbouring pair. */
  function JoinWith(sep: string, parts: seq<string>): string {
    if |parts| == 0 then ""
    else if |parts| == 1 then parts[0]
    else parts[0] + sep + JoinWith(sep, parts[1..])
  }

  /** Each part with `sep` in front of it. */
  function Prefixed(sep: string, parts: seq<string>): (r: seq<string>)
    ensures |r| == |parts|
    ensures forall i {:trigger r[i]} :: 0 <= i < |parts| ==> r[i] == sep + parts[i]
  {
    seq(|parts|, i requires 0 <= i < |parts| => sep + parts[i])
  }

  /**
   * Reference reading of `sep.join`: the first part, then every later part
   * preceded by the separator.
   */
  lemma {:induction false} JoinWithIsFirstThenPrefixed(sep: string, parts: seq<string>)
    requires |parts| > 0
    ensures JoinWith(sep, parts) == parts[0] + Join(Prefixed(sep, parts[1..]))
  {
    if |parts| == 1 {
      assert Prefixed(sep, parts[1..]) == [];
    } else {
      var rest := parts[1..];
      JoinWithIsFirstThenPrefixed(sep, rest);
      assert Prefixed(sep, rest) == [sep + rest[0]] + Prefixed(sep, rest[1..]);
      assert rest[1..] == parts[2..];
    }
  }

  /** Appending one part adds exactly one separator and that part. */
  lemma {:induction false} JoinWithSnoc(sep: string, parts: seq<string>, x: string)
    requires |parts| > 0
    ensures JoinWith(sep, parts + [x]) == JoinWith(sep, parts) + sep + x
  {
    if |parts| == 1 {
      assert (parts + [x])[1..] == [x];
    } else {
      assert (parts + [x])[1..] == parts[1..] + [x];
      JoinWithSnoc(sep, parts[1..], x);
    }
  }

  /** `n` non-empty parts yield their characters plus exactly `n - 1` separators. */
  lemma {:induction false} JoinWithLength(sep: string, parts: seq<string>)
    requires |parts| > 0
    ensures |JoinWith(sep, parts)| == |Join(parts)| + (|parts| - 1) * |sep|
  {
    if |parts| > 1 {
      JoinWithLength(sep, parts[1..]);
      calc {
        |JoinWith(sep, parts)|;
        |parts[0]| + |sep| + |Join(parts[1..])| + (|parts| - 2) * |sep|;
        |Join(parts)| + (|parts| - 1) * |sep|;
      }
    }
  }

  // ----- n * c -----

  /** `n * c` for a one-character string `c`: empty when `n` is zero or negative. */
  function Repeat(c: char, n: int): (r: string)
    ensures |r| == if n <= 0 then 0 else n
    ensures forall k :: 0 <= k < |r| ==> r[k] == c
  {
    if n <= 0 then "" else [c] + Repeat(c, n - 1)
  }

  // ----- str.strip() -----

  /** Every character of `s` in positions `i` up to (not including) `j` is whitespace. */
  predicate SpaceBetween(s: string, i: nat, j: nat)
    requires i <= j <= |s|
  {
    forall k :: i <= k < j ==> IsSpace(s[k])
  }

  /** The first position from `i` on that does not hold whitespace (or `|s|`). */
  function SkipSpace(s: string, i: nat): (j: nat)
    requires i <= |s|
    ensures i <= j <= |s| && SpaceBetween(s, i, j)
    ensures j == |s| || !IsSpace(s[j])
    decreases |s| - i
  {
    if i < |s| && IsSpace(s[i]) then SkipSpace(s, i + 1) else i
  }

  /** The smallest end `j >= lo` such that only whitespace lies between `j` and `hi`. */
  function SkipSpaceBack(s: string, lo: nat, hi: nat): (j: nat)
    requires lo <= hi <= |s|
    ensures lo <= j <= hi && SpaceBetween(s, j, hi)
    ensures j == lo || !IsSpace(s[j - 1])
    decreases hi - lo
  {
    if lo < hi && IsSpace(s[hi - 1]) then SkipSpaceBack(s, lo, hi - 1) else hi
  }

  /** `s.strip()`: `s` without its leading and trailing whitespace. */
  function Strip(s: string): (r: string)
    ensures |r| <= |s|
    ensures r == [] || (!IsSpace(r[0]) && !IsSpace(r[|r| - 1]))
  {
    var i := SkipSpace(s, 0);
    s[i..SkipSpaceBack(s, i, |s|)]
  }

  /**
   * Strip removes exactly the whitespace border: whatever whitespace surrounds
   * a core that neither starts nor ends with whitespace, the core is what remains.
   */
  lemma StripExact(lead: string, core: string, trail: string)
    requires AllSpace(lead) && AllSpace(trail)
    requires core == [] || (!IsSpace(core[0]) && !IsSpace(core[|core| - 1]))
    ensures Strip(lead + core + trail) == core
  {
    var s := lead + core + trail;
    var i, j := |lead|, |lead| + |core|;
    assert forall k :: 0 <= k < i ==> s[k] == lead[k];
    assert forall k :: j <= k < |s| ==> s[k] == trail[k - j];
    if core == [] {
      var first := SkipSpace(s, 0);
      assert s[first..SkipSpaceBack(s, first, |s|)] == [];
    } else {
      assert s[i] == core[0] && s[j - 1] == core[|core| - 1];
      assert SkipSpace(s, 0) == i;
      assert SkipSpaceBack(s, i, |s|) == j;
      assert s[i..j] == core;
    }
  }

  /** Every string is its stripped text with a whitespace border on each side. */
  lemma StripSplits(s: string) returns (lead: string, trail: string)
    ensures AllSpace(lead) && AllSpace(trail)
    ensures s == lead + Strip(s) + trail
  {
    var i := SkipSpace(s, 0);
    var j := SkipSpaceBack(s, i, |s|);
    lead, trail := s[..i], s[j..];
    assert s == s[..i] + s[i..j] + s[j..];
  }

  /** A string with no whitespace at either end is its own strip. */
  lemma StripKeepsStripped(r: string)
    requires r == [] || (!IsSpace(r[0]) && !IsSpace(r[|r| - 1]))
    ensures Strip(r) == r
  {
  }

  /** Stripping twice is stripping once. */
  lemma StripIdempotent(s: string)
    ensures Strip(Strip(s)) == Strip(s)
  {
  }

  // ----- str.title() -----

  predicate IsAsciiUpper(c: char) { 'A' <= c <= 'Z' }
  predicate IsAsciiLower(c: char) { 'a' <= c <= 'z' }

  function ToUpper(c: char): char {
    if IsAsciiLower(c) then (c as int - 32) as char else c
  }

  function ToLower(c: char): char {
    if IsAsciiUpper(c) then (c as int + 32) as char else c
  }

  /**
   * `s.title()` on ASCII text: a letter that follows a letter is lower-cased,
   * any other letter is upper-cased; every other character is kept.
   */
  function Title(s: string): (r: string)
    ensures |r| == |s|
  {
    TitleAfter(s, false)
  }

  function TitleAfter(s: string, previousCased: bool): (r: string)
    ensures |r| == |s|
    ensures s != [] ==> r[0] == if previousCased then ToLower(s[0]) else ToUpper(s[0])
  {
    if s == [] then ""
    else
      var c := s[0];
      [if previousCased then ToLower(c) else ToUpper(c)]
        + TitleAfter(s[1..], IsAsciiUpper(c) || IsAsciiLower(c))
  }

  /** `bool(s.title())` is `bool(s)`: title-casing never empties a string. */
  lemma TitleTruthy(s: string)
    ensures Truthy(Title(s)) <==> Truthy(s)
  {
  }
}
