/** Character and string helpers with Python's meaning: `str.isspace`, `str.strip`,
    `str.endswith` and the decimal rendering of a non-negative `int` in an f-string. */
module Strings {

  /** The code points Python's `str.isspace` accepts, which is the set `str.strip()`
      removes when called without arguments, as inclusive ranges. */
  const SpaceRanges: seq<(int, int)> := [
    (0x09, 0x0D), (0x1C, 0x20), (0x85, 0x85), (0xA0, 0xA0), (0x1680, 0x1680),
    (0x2000, 0x200A), (0x2028, 0x2029), (0x202F, 0x202F), (0x205F, 0x205F), (0x3000, 0x3000)
  ]

  predicate InRanges(x: int, ranges: seq<(int, int)>) {
    ranges != [] && (ranges[0].0 <= x <= ranges[0].1 || InRanges(x, ranges[1..]))
  }

  predicate IsSpace(c: char) {
    InRanges(c as int, SpaceRanges)
  }

  predicate AllSpace(s: string) {
    forall k :: 0 <= k < |s| ==> IsSpace(s[k])
  }

  /** Neither end of `s` is whitespace (vacuously true of the empty string). */
  predicate IsStripped(s: string) {
    s == [] || (!IsSpace(s[0]) && !IsSpace(s[|s| - 1]))
  }

  /** The first position at or after `i` that does not hold whitespace, or `|s|`. */
  function SkipSpace(s: string, i: nat): (k: nat)
    requires i <= |s|
    ensures i <= k <= |s|
    decreases |s| - i
  {
    if i < |s| && IsSpace(s[i]) then SkipSpace(s, i + 1) else i
  }

  /** The position just past the last non-whitespace character before `j`, or 0. */
  function SkipSpaceBack(s: string, j: nat): (k: nat)
    requires j <= |s|
    ensures k <= j
  {
    if 0 < j && IsSpace(s[j - 1]) then SkipSpaceBack(s, j - 1) else j
  }

  /** Number of leading whitespace characters of `s`. */
  function TrimStart(s: string): (i: nat)
    ensures i <= |s|
  {
    SkipSpace(s, 0)
  }

  /** Length of `s` once its trailing whitespace is removed. */
  function TrimEnd(s: string): (j: nat)
    ensures j <= |s|
  {
    SkipSpaceBack(s, |s|)
  }

  /** `SkipSpace` passes over exactly a run of whitespace. */
  lemma {:induction false} SkipSpaceFacts(s: string, i: nat)
    requires i <= |s|
    ensures forall k :: i <= k < SkipSpace(s, i) ==> IsSpace(s[k])
    ensures SkipSpace(s, i) < |s| ==> !IsSpace(s[SkipSpace(s, i)])
    decreases |s| - i
  {
    if i < |s| && IsSpace(s[i]) {
      SkipSpaceFacts(s, i + 1);
    }
  }

  /** `SkipSpaceBack` passes back over exactly a run of whitespace. */
  lemma {:induction false} SkipSpaceBackFacts(s: string, j: nat)
    requires j <= |s|
    ensures forall k :: SkipSpaceBack(s, j) <= k < j ==> IsSpace(s[k])
    ensures 0 < SkipSpaceBack(s, j) ==> !IsSpace(s[SkipSpaceBack(s, j) - 1])
  {
    if 0 < j && IsSpace(s[j - 1]) {
      SkipSpaceBackFacts(s, j - 1);
    }
  }

  /** `TrimStart` counts exactly the leading run of whitespace. */
  lemma TrimStartFacts(s: string)
    ensures forall k :: 0 <= k < TrimStart(s) ==> IsSpace(s[k])
    ensures TrimStart(s) < |s| ==> !IsSpace(s[TrimStart(s)])
  {
    SkipSpaceFacts(s, 0);
  }

  /** `TrimEnd` stops exactly before the trailing run of whitespace. */
  lemma TrimEndFacts(s: string)
    ensures forall k :: TrimEnd(s) <= k < |s| ==> IsSpace(s[k])
    ensures 0 < TrimEnd(s) ==> !IsSpace(s[TrimEnd(s) - 1])
  {
    SkipSpaceBackFacts(s, |s|);
  }

  /** The character `TrimStart` stops at is not whitespace. */
  lemma TrimStartStops(s: string)
    ensures TrimStart(s) < |s| ==> !IsSpace(s[TrimStart(s)])
  {
    SkipSpaceFacts(s, 0);
  }

  /** The character just before `TrimEnd` is not whitespace. */
  lemma TrimEndStops(s: string)
    ensures 0 < TrimEnd(s) ==> !IsSpace(s[TrimEnd(s) - 1])
  {
    SkipSpaceBackFacts(s, |s|);
  }

  /** Unless `s` is all whitespace, its first non-whitespace character comes before the
      end of its last one. */
  lemma TrimOrder(s: string)
    ensures TrimStart(s) < |s| ==> TrimStart(s) < TrimEnd(s)
  {
    TrimStartFacts(s);
    TrimEndFacts(s);
  }

  /** Leading whitespace covers all of `s` exactly when `s` is all whitespace. */
  lemma TrimAllSpace(s: string)
    ensures TrimStart(s) == |s| <==> AllSpace(s)
  {
    TrimStartFacts(s);
  }

  /** Python's `s.strip()`: the infix of `s` left once whitespace is removed from both ends. */
  function Strip(s: string): (r: string)
    ensures |r| <= |s|
  {
    var i := TrimStart(s);
    if i == |s| then [] else TrimOrder(s); s[i..TrimEnd(s)]
  }

  /** A non-empty strip is the infix between the two trim positions. */
  lemma StripInfix(s: string)
    requires Strip(s) != []
    ensures TrimStart(s) < TrimEnd(s) <= |s|
    ensures Strip(s) == s[TrimStart(s)..TrimEnd(s)]
  {
    TrimOrder(s);
  }

  /** What `Strip` promises: a stripped infix of `s` that is empty exactly when `s` is
      all whitespace, with only whitespace cut off on either side. */
  lemma StripFacts(s: string)
    ensures IsStripped(Strip(s))
    ensures Strip(s) == [] <==> AllSpace(s)
    ensures !AllSpace(s) ==>
      && TrimStart(s) < TrimEnd(s)
      && Strip(s) == s[TrimStart(s)..TrimEnd(s)]
      && (forall k :: 0 <= k < TrimStart(s) ==> IsSpace(s[k]))
      && (forall k :: TrimEnd(s) <= k < |s| ==> IsSpace(s[k]))
      && !IsSpace(s[TrimStart(s)]) && !IsSpace(s[TrimEnd(s) - 1])
  {
    TrimStartFacts(s);
    TrimEndFacts(s);
    TrimOrder(s);
    TrimAllSpace(s);
    StripIsStripped(s);
  }

  lemma StripIsStripped(s: string)
    ensures IsStripped(Strip(s))
  {
    TrimOrder(s);
    if TrimStart(s) < |s| {
      TrimStartFacts(s);
      TrimEndFacts(s);
      var i, j := TrimStart(s), TrimEnd(s);
      assert Strip(s)[0] == s[i];
      assert Strip(s)[|Strip(s)| - 1] == s[j - 1];
    }
  }

  /** `Strip` is the unique non-empty stripped infix of `s` framed by whitespace. */
  lemma StripUnique(s: string, p: string, r: string, q: string)
    requires s == p + r + q
    requires AllSpace(p) && AllSpace(q)
    requires r != [] && IsStripped(r)
    ensures Strip(s) == r
  {
    TrimStartFacts(s);
    TrimEndFacts(s);
    assert s[|p|] == r[0];
    assert s[|p| + |r| - 1] == r[|r| - 1];
    assert forall k :: 0 <= k < |p| ==> s[k] == p[k];
    assert forall k :: |p| + |r| <= k < |s| ==> s[k] == q[k - |p| - |r|];
    assert s[|p|..|p| + |r|] == r;
  }

  /** Stripping twice is the same as stripping once. */
  lemma StripIdempotent(s: string)
    ensures Strip(Strip(s)) == Strip(s)
  {
    var r := Strip(s);
    StripFacts(s);
    if r != [] {
      StripUnique(r, [], r, []);
      assert r == [] + r + [];
    }
  }

  /** A slice of a slice is a slice of the original. */
  lemma SliceOfSlice(t: string, lo: nat, hi: nat, i: nat, j: nat)
    requires lo <= hi <= |t| && i <= j <= hi - lo
    ensures t[lo..hi][i..j] == t[lo + i..lo + j]
  {
    assert forall k :: 0 <= k < j - i ==> t[lo..hi][i..j][k] == t[lo + i + k];
  }

  /** Python's `s.endswith(suffix)`. */
  predicate EndsWith(s: string, suffix: string) {
    |suffix| <= |s| && s[|s| - |suffix|..] == suffix
  }

  /** The decimal digit character of `d`. */
  function DigitChar(d: nat): (c: char)
    requires d < 10
    ensures '0' <= c <= '9'
  {
    (48 + d) as char
  }

  /** The decimal rendering of `n`, as `f"{n}"` writes a non-negative `int`. */
  function NatToString(n: nat): (s: string)
    ensures 1 <= |s|
    ensures |s| == 1 <==> n < 10
    ensures forall k :: 0 <= k < |s| ==> '0' <= s[k] <= '9'
  {
    if n < 10 then [DigitChar(n)] else NatToString(n / 10) + [DigitChar(n % 10)]
  }

  /** Distinct numbers have distinct decimal renderings. */
  lemma {:induction false} NatToStringInjective(m: nat, n: nat)
    requires NatToString(m) == NatToString(n)
    ensures m == n
  {
    if m >= 10 && n >= 10 {
      var sm, sn := NatToString(m), NatToString(n);
      assert sm[|sm| - 1] == DigitChar(m % 10);
      assert sn[|sn| - 1] == DigitChar(n % 10);
      assert NatToString(m / 10) == sm[..|sm| - 1];
      assert NatToString(n / 10) == sn[..|sn| - 1];
      NatToStringInjective(m / 10, n / 10);
    }
  }
}
