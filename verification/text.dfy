/** Character classes, case folding, `str.strip()` and decimal numerals, as
    the transformer and the infobox scanner use them. */
module Text {

  /** Python's whitespace (`\s` in a `str` pattern, and what `str.strip()`
      removes): the characters of bidirectional class WS, B or S or of
      category Zs. */
  predicate IsSpace(c: char) {
    || ('\t' <= c <= '\r')
    || ('\U{1C}' <= c <= ' ')
    || c == '\U{85}' || c == '\U{A0}' || c == '\U{1680}'
    || ('\U{2000}' <= c <= '\U{200A}')
    || c == '\U{2028}' || c == '\U{2029}' || c == '\U{202F}'
    || c == '\U{205F}' || c == '\U{3000}'
  }

  predicate IsDigit(c: char) {
    '0' <= c <= '9'
  }

  predicate IsLetter(c: char) {
    ('a' <= c <= 'z') || ('A' <= c <= 'Z')
  }

  predicate AllDigits(s: string) {
    forall i :: 0 <= i < |s| ==> IsDigit(s[i])
  }

  predicate AllSpace(s: string) {
    forall i :: 0 <= i < |s| ==> IsSpace(s[i])
  }

  /** `str.isdigit()`: non-empty and every character a digit. */
  predicate IsDigitStr(s: string) {
    |s| > 0 && AllDigits(s)
  }

  /** `str.isalpha()`: non-empty and every character a letter. */
  predicate IsAlphaStr(s: string) {
    |s| > 0 && forall i :: 0 <= i < |s| ==> IsLetter(s[i])
  }

  function LowerChar(c: char): (d: char)
    ensures IsLetter(c) <==> 'a' <= d <= 'z'
    ensures !IsLetter(c) ==> d == c
  {
    if 'A' <= c <= 'Z' then (c as int + 32) as char else c
  }

  /** `str.lower()`, character by character. */
  function Lower(s: string): (t: string)
    ensures |t| == |s|
    ensures forall i :: 0 <= i < |s| ==> t[i] == LowerChar(s[i])
  {
    seq(|s|, i requires 0 <= i < |s| => LowerChar(s[i]))
  }

  /** Two strings that an IGNORECASE pattern treats as equal. */
  predicate EqualsIgnoringCase(a: string, b: string) {
    |a| == |b| && forall i :: 0 <= i < |a| ==> LowerChar(a[i]) == LowerChar(b[i])
  }

  /** Python's `needle in haystack` on strings. */
  predicate IsInfix(needle: string, haystack: string) {
    exists i :: 0 <= i <= |haystack| && InfixAt(needle, haystack, i)
  }

  /** `needle` occurs in `haystack` at index `i`. */
  predicate InfixAt(needle: string, haystack: string, i: int) {
    0 <= i <= |haystack| - |needle| && haystack[i..i + |needle|] == needle
  }

  lemma InfixTransitive(a: string, b: string, c: string)
    requires IsInfix(a, b) && IsInfix(b, c)
    ensures IsInfix(a, c)
  {
    var i :| 0 <= i <= |b| && InfixAt(a, b, i);
    var j :| 0 <= j <= |c| && InfixAt(b, c, j);
    forall k | 0 <= k < |a| ensures c[j + i + k] == a[k] {
      assert a[k] == b[i + k];
      assert b[i + k] == c[j + i + k];
    }
    assert c[j + i..j + i + |a|] == a;
    assert InfixAt(a, c, j + i);
  }

  lemma LowerInfix(a: string, b: string)
    requires IsInfix(a, b)
    ensures IsInfix(Lower(a), Lower(b))
  {
    var i :| 0 <= i <= |b| && InfixAt(a, b, i);
    forall k | 0 <= k < |a| ensures Lower(b)[i + k] == Lower(a)[k] {
      assert a[k] == b[i + k];
    }
    assert Lower(b)[i..i + |a|] == Lower(a);
    assert InfixAt(Lower(a), Lower(b), i);
  }

  /** Number of whitespace characters starting at `from`. */
  function SpaceRun(s: string, from: nat): (n: nat)
    requires from <= |s|
    ensures from + n <= |s|
    ensures AllSpace(s[from..from + n])
    ensures from + n == |s| || !IsSpace(s[from + n])
    decreases |s| - from
  {
    if from < |s| && IsSpace(s[from]) then
      var n := 1 + SpaceRun(s, from + 1);
      assert s[from..from + n] == [s[from]] + s[from + 1..from + n];
      n
    else 0
  }

  /** Concatenation is associative. */
  lemma ConcatAssoc(x: string, y: string, z: string)
    ensures x + (y + z) == (x + y) + z
  {
  }

  /** `k` is the first index at or after `from` that holds `c`. */
  predicate FirstAt(s: string, c: char, from: nat, k: nat) {
    from <= k < |s| && s[k] == c && forall j :: from <= j < k ==> s[j] != c
  }

  /** The first index at or after `from` holding `c`, or `|s|` if none. */
  function FindChar(s: string, c: char, from: nat): (k: nat)
    requires from <= |s|
    ensures from <= k <= |s|
    ensures forall j :: from <= j < k ==> s[j] != c
    ensures k < |s| ==> s[k] == c
    decreases |s| - from
  {
    if from == |s| || s[from] == c then from else FindChar(s, c, from + 1)
  }

  /** `FindChar` returns the first index holding `c`. */
  lemma FindCharFirst(s: string, c: char, from: nat)
    requires from <= |s|
    ensures forall k :: FirstAt(s, c, from, k) ==> FindChar(s, c, from) == k
  {
  }

  /** Number of digits starting at `from`, at most two: what `\d{1,2}`
      takes greedily. */
  function Digits12(s: string, from: nat): (n: nat)
    requires from <= |s|
    ensures n <= 2 && from + n <= |s|
    ensures AllDigits(s[from..from + n])
    ensures n < 2 ==> from + n == |s| || !IsDigit(s[from + n])
  {
    if from < |s| && IsDigit(s[from]) then
      if from + 1 < |s| && IsDigit(s[from + 1]) then 2 else 1
    else 0
  }

  /** Adjacent slices join up. */
  lemma SliceSplit(s: string, i: nat, j: nat, k: nat)
    requires i <= j <= k <= |s|
    ensures s[i..k] == s[i..j] + s[j..k]
  {
  }

  /** The end of `s[lo..hi]` once its trailing whitespace is cut off. */
  function TrimEndIndex(s: string, lo: nat, hi: nat): (k: nat)
    requires lo <= hi <= |s|
    requires forall j :: hi <= j < |s| ==> IsSpace(s[j])
    ensures lo <= k <= hi
    ensures forall j :: k <= j < |s| ==> IsSpace(s[j])
    ensures k == lo || !IsSpace(s[k - 1])
    decreases hi
  {
    if lo < hi && IsSpace(s[hi - 1]) then TrimEndIndex(s, lo, hi - 1) else hi
  }

  /** `str.strip()`: the middle of `s` once the whitespace at both ends is
      cut off. */
  function Strip(s: string): (t: string)
    ensures IsInfix(t, s)
    ensures |t| > 0 ==> !IsSpace(t[0]) && !IsSpace(t[|t| - 1])
    ensures AllSpace(s) ==> t == ""
    ensures exists lo, hi :: 0 <= lo <= hi <= |s| && t == s[lo..hi] && AllSpace(s[..lo]) && AllSpace(s[hi..])
  {
    var lo := SpaceRun(s, 0);
    var hi := TrimEndIndex(s, lo, |s|);
    assert InfixAt(s[lo..hi], s, lo);
    assert AllSpace(s[hi..]);
    s[lo..hi]
  }

  /** `str.strip()` removes exactly the whitespace at the ends: any split
      of `s` into a whitespace prefix, a trimmed middle and a whitespace
      suffix is the one `Strip` makes. */
  lemma {:induction false} StripExactly(s: string, lo: nat, hi: nat)
    requires lo <= hi <= |s| && AllSpace(s[..lo]) && AllSpace(s[hi..])
    requires lo < hi ==> !IsSpace(s[lo]) && !IsSpace(s[hi - 1])
    ensures Strip(s) == s[lo..hi]
  {
    if lo < hi {
      SpaceRunTo(s, 0, lo);
      TrimEndTo(s, lo, |s|, hi);
    } else {
      forall j | 0 <= j < |s| ensures IsSpace(s[j]) {
        if j < lo { assert s[..lo][j] == s[j]; } else { assert s[hi..][j - hi] == s[j]; }
      }
      assert AllSpace(s);
    }
  }

  /** A whitespace run ending at a non-space character is what `SpaceRun`
      measures. */
  lemma {:induction false} SpaceRunTo(s: string, from: nat, stop: nat)
    requires from <= stop < |s| && !IsSpace(s[stop])
    requires forall j :: from <= j < stop ==> IsSpace(s[j])
    ensures SpaceRun(s, from) == stop - from
    decreases stop - from
  {
    if from < stop {
      SpaceRunTo(s, from + 1, stop);
    }
  }

  /** Trailing whitespace back to a non-space character is what
      `TrimEndIndex` cuts. */
  lemma {:induction false} TrimEndTo(s: string, lo: nat, hi: int, k: nat)
    requires lo < k <= hi <= |s| && !IsSpace(s[k - 1])
    requires forall j :: k <= j < |s| ==> IsSpace(s[j])
    ensures TrimEndIndex(s, lo, hi) == k
    decreases hi
  {
    if k < hi {
      TrimEndTo(s, lo, hi - 1, k);
    }
  }

  /** A string that `Strip` leaves alone. */
  lemma StripUnchanged(s: string)
    requires |s| > 0 ==> !IsSpace(s[0]) && !IsSpace(s[|s| - 1])
    ensures Strip(s) == s
  {
  }

  /** `int(s)` on a string of ASCII digits. */
  function DigitsValue(s: string): (n: nat)
    requires AllDigits(s)
  {
    if |s| == 0 then 0
    else 10 * DigitsValue(s[..|s| - 1]) + (s[|s| - 1] as int - '0' as int)
  }

  lemma DigitsValueBound(s: string)
    requires AllDigits(s)
    ensures DigitsValue(s) < Pow10(|s|)
  {
    if |s| > 0 {
      DigitsValueBound(s[..|s| - 1]);
    }
  }

  function Pow10(k: nat): (p: nat)
    ensures p >= 1
  {
    if k == 0 then 1 else 10 * Pow10(k - 1)
  }

  function DigitChar(d: nat): (c: char)
    requires d < 10
    ensures IsDigit(c) && c as int - '0' as int == d
  {
    ('0' as int + d) as char
  }

  /** `str(n)` for a natural number: decimal digits, no leading zero. */
  function NatToString(n: nat): (s: string)
    ensures IsDigitStr(s)
    ensures |s| > 1 ==> s[0] != '0'
    ensures DigitsValue(s) == n
  {
    if n < 10 then [DigitChar(n)]
    else
      var s := NatToString(n / 10) + [DigitChar(n % 10)];
      assert s[..|s| - 1] == NatToString(n / 10);
      s
  }

  /** `f"{n:02d}"`: zero-padded to at least two digits. */
  function Pad2(n: nat): (s: string)
    ensures IsDigitStr(s) && |s| >= 2
    ensures DigitsValue(s) == n
    ensures n < 10 ==> |s| == 2
    ensures n >= 10 ==> s == NatToString(n)
  {
    var d := NatToString(n);
    if n < 10 then
      var s := ['0'] + d;
      assert s[..|s| - 1] == ['0'];
      s
    else d
  }
}
