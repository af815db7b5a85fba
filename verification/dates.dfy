/** `DataTransformer.parse_date`: four date patterns searched in a fixed
    order over the cleaned string; the first pattern whose match passes its
    branch decides the result, and otherwise the raw text is kept. */
module Dates {
  import opened Values
  import opened Text
  import opened Cleaning

  /** The date patterns, in the order `parse_date` tries them. */
  datatype Pattern =
    | DayMonthYear  // (\d{1,2})\s+(January|...|December)\s+(\d{4}), ignoring case
    | Year          // (\d{4})
    | Slashed       // (\d{1,2})/(\d{1,2})/(\d{4})
    | Dashed        // (\d{4})-(\d{1,2})-(\d{1,2})

  const DatePatterns: seq<Pattern> := [DayMonthYear, Year, Slashed, Dashed]

  const MonthNames: seq<string> :=
    ["January", "February", "March", "April", "May", "June",
     "July", "August", "September", "October", "November", "December"]

  /** The dictionary `parse_date` returns, by the keys it carries. */
  datatype ParsedDate =
    | NamedMonthDate(day: nat, monthName: string, year: nat, formatted: string, raw: string)
    | YearOnly(year: nat, formatted: string, raw: string)
    | NumericDate(day: nat, month: nat, year: nat, formatted: string, raw: string)
    | Unparsed(formatted: string, raw: string)
  {
    /** The record has a `'year'` key. */
    predicate HasYear() {
      !Unparsed?
    }
  }

  /** A successful `re.search`: where the match starts and its groups. */
  datatype Hit = Hit(pos: nat, groups: seq<string>)

  /** `\d{4}` at index `i`. */
  predicate FourDigitsAt(d: string, i: nat) {
    i + 4 <= |d| && AllDigits(d[i..i + 4])
  }

  /** `m` spells one of `names`, ignoring case. */
  predicate IsMonthOf(m: string, names: seq<string>) {
    names != [] && (EqualsIgnoringCase(m, names[0]) || IsMonthOf(m, names[1..]))
  }

  /** The alternation of month names at index `q`, ignoring case: the text
      of the first name in `names` found there. */
  function MonthAt(d: string, q: nat, names: seq<string>): (r: Option<string>)
    requires q <= |d|
    ensures r.Some? ==> q + |r.value| <= |d| && r.value == d[q..q + |r.value|]
    ensures r.Some? ==> IsMonthOf(r.value, names)
  {
    if names == [] then None
    else
      var n := names[0];
      if q + |n| <= |d| && EqualsIgnoringCase(d[q..q + |n|], n) then Some(d[q..q + |n|])
      else MonthAt(d, q, names[1..])
  }

  /** The month name, as written, at index `q`. */
  function MonthNameAt(d: string, q: nat): (r: Option<string>)
    requires q <= |d|
    ensures r.Some? ==> q + |r.value| <= |d| && r.value == d[q..q + |r.value|]
    ensures r.Some? ==> IsMonthOf(r.value, MonthNames)
  {
    MonthAt(d, q, MonthNames)
  }

  /** The tail of pattern 1 from index `j`, just after the day: whitespace,
      a month name, whitespace and four digits. Yields the month as written,
      the index of the month and the index of the year. */
  function MonthYearAt(d: string, j: nat): (r: Option<(string, nat, nat)>)
    requires j <= |d|
    ensures r.Some? ==> IsMonthOf(r.value.0, MonthNames)
    ensures r.Some? ==> var (m, q, t) := r.value;
      && j < q && q + |m| < t && FourDigitsAt(d, t)
      && AllSpace(d[j..q]) && d[q..q + |m|] == m && AllSpace(d[q + |m|..t])
  {
    var w := SpaceRun(d, j);
    if w == 0 then None else MonthYearFrom(d, j + w)
  }

  /** A month name at index `q`, whitespace and four digits. */
  function MonthYearFrom(d: string, q: nat): (r: Option<(string, nat, nat)>)
    requires q <= |d|
    ensures r.Some? ==> IsMonthOf(r.value.0, MonthNames)
    ensures r.Some? ==> var (m, q', t) := r.value;
      && q' == q && q + |m| < t && FourDigitsAt(d, t)
      && d[q..q + |m|] == m && AllSpace(d[q + |m|..t])
  {
    match MonthNameAt(d, q)
    case None => None
    case Some(m) =>
      match YearAfter(d, q + |m|)
      case None => None
      case Some(t) => Some((m, q, t))
  }

  /** `\s+(\d{4})` from index `r`: the index of the year. */
  function YearAfter(d: string, r: nat): (t: Option<nat>)
    requires r <= |d|
    ensures t.Some? ==> r < t.value && FourDigitsAt(d, t.value) && AllSpace(d[r..t.value])
  {
    var w := SpaceRun(d, r);
    if w > 0 && FourDigitsAt(d, r + w) then Some(r + w) else None
  }

  /** The text of `d` from `i` reads: the day `g[0]`, whitespace, the month
      `g[1]` at `q`, whitespace, and the year `g[2]` at `t`. */
  predicate DayMonthYearSplit(d: string, i: nat, g: seq<string>, q: nat, t: nat) {
    && |g| == 3
    && i + |g[0]| < q && q + |g[1]| < t && t + 4 <= |d|
    && d[i..i + |g[0]|] == g[0] && AllSpace(d[i + |g[0]|..q])
    && d[q..q + |g[1]|] == g[1] && AllSpace(d[q + |g[1]|..t])
    && d[t..t + 4] == g[2]
  }

  /** Pattern 1 at index `i`: day, whitespace, month name, whitespace,
      year. Backtracking cannot change the outcome: a day digit given back
      stands where whitespace is needed, whitespace given back stands where
      a month or the year must start, and no month name extends another. */
  function DayMonthYearAt(d: string, i: nat): (r: Option<seq<string>>)
    requires i <= |d|
    ensures r.Some? ==> |r.value| == 3 && 1 <= |r.value[0]| <= 2 && IsDigitStr(r.value[0])
    ensures r.Some? ==> |r.value[2]| == 4 && IsDigitStr(r.value[2])
    ensures r.Some? ==> IsMonthOf(r.value[1], MonthNames)
    ensures r.Some? ==> exists t :: i < t && FourDigitsAt(d, t) && r.value[2] == d[t..t + 4]
    ensures r.Some? ==> exists q: nat, t: nat :: DayMonthYearSplit(d, i, r.value, q, t)
  {
    var a := Digits12(d, i);
    if a == 0 then None
    else
      match MonthYearAt(d, i + a)
      case None => None
      case Some((m, q, t)) =>
        var day, year := d[i..i + a], d[t..t + 4];
        assert |day| == a && IsDigitStr(day);
        assert |year| == 4 && IsDigitStr(year);
        assert i < t && FourDigitsAt(d, t) && year == d[t..t + 4];
        assert DayMonthYearSplit(d, i, [day, m, year], q, t);
        Some([day, m, year])
  }

  /** Pattern 3 at index `i`: `M/D/YYYY` with one- or two-digit parts. */
  function SlashedAt(d: string, i: nat): (r: Option<seq<string>>)
    requires i <= |d|
    ensures r.Some? ==> |r.value| == 3 && forall g :: g in r.value ==> IsDigitStr(g)
    ensures r.Some? ==> |r.value[0]| <= 2 && |r.value[1]| <= 2 && |r.value[2]| == 4
    ensures r.Some? ==> i + |r.value[0]| + |r.value[1]| + 6 <= |d|
                        && d[i..i + |r.value[0]| + |r.value[1]| + 6]
                           == r.value[0] + "/" + r.value[1] + "/" + r.value[2]
    ensures r.Some? ==> FourDigitsAt(d, i + |r.value[0]| + |r.value[1]| + 2)
  {
    var a := Digits12(d, i);
    if a == 0 then None
    else
      var j := i + a;
      if !(j < |d| && d[j] == '/') then None
      else
        var b := Digits12(d, j + 1);
        if b == 0 then None
        else
          var k := j + 1 + b;
          if !(k < |d| && d[k] == '/') then None
          else if FourDigitsAt(d, k + 1) then
            var g := [d[i..j], d[j + 1..k], d[k + 1..k + 5]];
            SliceSplit(d, i, j, k + 5);
            SliceSplit(d, j, j + 1, k + 5);
            SliceSplit(d, j + 1, k, k + 5);
            SliceSplit(d, k, k + 1, k + 5);
            assert d[j..j + 1] == "/" && d[k..k + 1] == "/";
            assert d[i..k + 5] == g[0] + "/" + g[1] + "/" + g[2];
            Some(g)
          else None
  }

  /** Pattern 4 at index `i`: `YYYY-M-D` with one- or two-digit parts. */
  function DashedAt(d: string, i: nat): (r: Option<seq<string>>)
    requires i <= |d|
    ensures r.Some? ==> |r.value| == 3 && forall g :: g in r.value ==> IsDigitStr(g)
    ensures r.Some? ==> |r.value[0]| == 4 && |r.value[1]| <= 2 && |r.value[2]| <= 2
    ensures r.Some? ==> i + |r.value[1]| + |r.value[2]| + 6 <= |d|
                        && d[i..i + |r.value[1]| + |r.value[2]| + 6]
                           == r.value[0] + "-" + r.value[1] + "-" + r.value[2]
    ensures r.Some? ==> FourDigitsAt(d, i) && r.value[0] == d[i..i + 4]
  {
    if !(FourDigitsAt(d, i) && i + 4 < |d| && d[i + 4] == '-') then None
    else
      var b := Digits12(d, i + 5);
      if b == 0 then None
      else
        var k := i + 5 + b;
        if !(k < |d| && d[k] == '-') then None
        else
          var c := Digits12(d, k + 1);
          if c == 0 then None
          else
            var g := [d[i..i + 4], d[i + 5..k], d[k + 1..k + 1 + c]];
            SliceSplit(d, i, i + 4, k + 1 + c);
            SliceSplit(d, i + 4, i + 5, k + 1 + c);
            SliceSplit(d, i + 5, k, k + 1 + c);
            SliceSplit(d, k, k + 1, k + 1 + c);
            assert d[i + 4..i + 5] == "-" && d[k..k + 1] == "-";
            assert d[i..k + 1 + c] == g[0] + "-" + g[1] + "-" + g[2];
            Some(g)
  }

  /** The groups of pattern `p` matched at index `i` of `d`, if it matches
      there. */
  function PatternAt(p: Pattern, d: string, i: nat): (r: Option<seq<string>>)
    requires i <= |d|
    ensures p == Year ==> (r.Some? <==> FourDigitsAt(d, i))
    ensures p == Year && r.Some? ==> r.value == [d[i..i + 4]]
  {
    match p
    case DayMonthYear => DayMonthYearAt(d, i)
    case Year => if FourDigitsAt(d, i) then Some([d[i..i + 4]]) else None
    case Slashed => SlashedAt(d, i)
    case Dashed => DashedAt(d, i)
  }

  /** `re.search(p, d[from..])`: the leftmost index where `p` matches. */
  function Search(p: Pattern, d: string, from: nat): (r: Option<Hit>)
    requires from <= |d|
    ensures r.Some? ==> from <= r.value.pos <= |d| && PatternAt(p, d, r.value.pos) == Some(r.value.groups)
    ensures r.Some? ==> forall j :: from <= j < r.value.pos ==> PatternAt(p, d, j).None?
    ensures r.None? ==> forall j :: from <= j <= |d| ==> PatternAt(p, d, j).None?
    decreases |d| - from
  {
    match PatternAt(p, d, from)
    case Some(g) => Some(Hit(from, g))
    case None => if from == |d| then None else Search(p, d, from + 1)
  }

  /** `int(g)`: defined on a non-empty string of digits; `None` stands for
      the `ValueError` that sends `parse_date` on to the next pattern. */
  function IntOf(g: string): (r: Option<nat>)
    ensures r.Some? <==> IsDigitStr(g)
    ensures r.Some? ==> r.value == DigitsValue(g)
  {
    if IsDigitStr(g) then Some(DigitsValue(g)) else None
  }

  /** The branches of the loop body of `parse_date`, chosen by the shape of
      the groups; `None` means the loop goes on to the next pattern. */
  function Branch(g: seq<string>, d: string): (r: Option<ParsedDate>)
    ensures r.Some? ==> r.value.raw == d && r.value.HasYear()
    ensures r.Some? && r.value.YearOnly? ==> 1000 <= r.value.year <= 2100
  {
    if |g| == 3 && IsAlphaStr(g[1]) then
      match (IntOf(g[0]), IntOf(g[2]))
      case (Some(day), Some(year)) =>
        Some(NamedMonthDate(day, g[1], year, NatToString(day) + " " + g[1] + " " + NatToString(year), d))
      case _ => None
    else if |g| == 1 && IsDigitStr(g[0]) then
      var year := DigitsValue(g[0]);
      if 1000 <= year <= 2100 then Some(YearOnly(year, NatToString(year), d)) else None
    else if |g| == 3 && IsDigitStr(g[0]) && IsDigitStr(g[1]) && IsDigitStr(g[2]) then
      var (x, y, z) := (DigitsValue(g[0]), DigitsValue(g[1]), DigitsValue(g[2]));
      if '/' in d then NumericDateOf(y, x, z, d) else NumericDateOf(z, y, x, d)
    else None
  }

  function NumericDateOf(day: nat, month: nat, year: nat, d: string): Option<ParsedDate> {
    Some(NumericDate(day, month, year, NatToString(year) + "-" + Pad2(month) + "-" + Pad2(day), d))
  }

  /** The loop of `parse_date` over the patterns `ps`: the first pattern
      that matches and whose branch returns decides. */
  function TryPatterns(ps: seq<Pattern>, d: string): (r: Option<ParsedDate>)
    ensures r.Some? ==> r.value.raw == d && r.value.HasYear()
    ensures r.Some? && r.value.YearOnly? ==> 1000 <= r.value.year <= 2100
  {
    if ps == [] then None
    else match Search(ps[0], d, 0)
      case None => TryPatterns(ps[1..], d)
      case Some(h) =>
        match Branch(h.groups, d)
        case Some(date) => Some(date)
        case None => TryPatterns(ps[1..], d)
  }

  /** `parse_date(date_string)`. */
  function ParseDate(s: string): (r: Option<ParsedDate>)
    ensures r.None? <==> s == ""
    ensures r.Some? ==> r.value.raw == CleanText(s)
    ensures r.Some? && r.value.Unparsed? ==> r.value.formatted == r.value.raw
    ensures r.Some? && r.value.YearOnly? ==> 1000 <= r.value.year <= 2100
  {
    if s == "" then None
    else
      var d := CleanText(s);
      match TryPatterns(DatePatterns, d)
      case Some(date) => Some(date)
      case None => Some(Unparsed(d, d))
  }

  /** Pattern `p` matches somewhere in `d`. */
  ghost predicate Occurs(p: Pattern, d: string) {
    exists i :: 0 <= i <= |d| && PatternAt(p, d, i).Some?
  }

  /** `i` is where the leftmost run of four digits in `d` starts. */
  ghost predicate LeftmostFourDigits(d: string, i: nat) {
    FourDigitsAt(d, i) && forall j :: 0 <= j < i ==> !FourDigitsAt(d, j)
  }

  lemma SearchOccurs(p: Pattern, d: string)
    ensures Search(p, d, 0).Some? <==> Occurs(p, d)
  {
    if Occurs(p, d) {
      var i :| 0 <= i <= |d| && PatternAt(p, d, i).Some?;
    }
  }

  /** Every pattern but the bare year contains four digits, so it can only
      match where the bare-year pattern matches somewhere too. */
  lemma MatchHasFourDigits(p: Pattern, d: string, i: nat)
    requires i <= |d| && PatternAt(p, d, i).Some?
    ensures exists t :: i <= t <= |d| && FourDigitsAt(d, t)
  {
  }

  /** A word equal, ignoring case, to a word of letters is a word of
      letters. */
  lemma CaseEqualAlpha(m: string, n: string)
    requires EqualsIgnoringCase(m, n) && IsAlphaStr(n)
    ensures IsAlphaStr(m)
  {
    forall k | 0 <= k < |m| ensures IsLetter(m[k]) {
      assert IsLetter(n[k]);
      assert LowerChar(m[k]) == LowerChar(n[k]);
    }
  }

  lemma {:induction false} MonthOfAlphaNames(m: string, names: seq<string>)
    requires forall i :: 0 <= i < |names| ==> IsAlphaStr(names[i])
    requires IsMonthOf(m, names)
    ensures IsAlphaStr(m)
  {
    if EqualsIgnoringCase(m, names[0]) {
      CaseEqualAlpha(m, names[0]);
    } else {
      assert forall i :: 0 <= i < |names[1..]| ==> names[1..][i] == names[i + 1];
      MonthOfAlphaNames(m, names[1..]);
    }
  }

  lemma MonthNamesAreAlpha(m: string)
    requires IsMonthOf(m, MonthNames)
    ensures IsAlphaStr(m)
  {
    AlphaMonthNames();
    MonthOfAlphaNames(m, MonthNames);
  }

  lemma AlphaMonthNames()
    ensures forall i :: 0 <= i < |MonthNames| ==> IsAlphaStr(MonthNames[i])
  {
    forall i | 0 <= i < |MonthNames| ensures IsAlphaStr(MonthNames[i]) {
    }
  }

  /** The month number read off the first three letters, in lower case, of
      a month name. */
  function MonthIndex(a: char, b: char, c: char): int {
    if a == 'j' then (if b == 'a' then 0 else if c == 'n' then 5 else 6)
    else if a == 'f' then 1
    else if a == 'm' then (if c == 'r' then 2 else 4)
    else if a == 'a' then (if b == 'p' then 3 else 7)
    else if a == 's' then 8
    else if a == 'o' then 9
    else if a == 'n' then 10
    else 11
  }

  /** The first three letters of a month name tell which month it is. */
  lemma MonthTriples()
    ensures forall k :: 0 <= k < |MonthNames| ==>
      |MonthNames[k]| >= 3
      && MonthIndex(LowerChar(MonthNames[k][0]), LowerChar(MonthNames[k][1]), LowerChar(MonthNames[k][2])) == k
  {
    forall k | 0 <= k < |MonthNames|
      ensures |MonthNames[k]| >= 3
      ensures MonthIndex(LowerChar(MonthNames[k][0]), LowerChar(MonthNames[k][1]), LowerChar(MonthNames[k][2])) == k
    {
    }
  }

  /** A word matching `names` ignoring case matches one name of the list. */
  lemma {:induction false} MonthOfSome(m: string, names: seq<string>)
    requires IsMonthOf(m, names)
    ensures exists k :: 0 <= k < |names| && EqualsIgnoringCase(m, names[k])
  {
    if !EqualsIgnoringCase(m, names[0]) {
      MonthOfSome(m, names[1..]);
      var k :| 0 <= k < |names[1..]| && EqualsIgnoringCase(m, names[1..][k]);
      assert names[1..][k] == names[k + 1];
    }
  }

  /** Where one of `names` is written at `q`, ignoring case, the alternation
      matches there. */
  lemma {:induction false} MonthAtFinds(d: string, q: nat, names: seq<string>, k: nat)
    requires q <= |d| && k < |names|
    requires q + |names[k]| <= |d| && EqualsIgnoringCase(d[q..q + |names[k]|], names[k])
    ensures MonthAt(d, q, names).Some?
  {
    var n := names[0];
    if !(q + |n| <= |d| && EqualsIgnoringCase(d[q..q + |n|], n)) {
      assert k > 0 && names[1..][k - 1] == names[k];
      MonthAtFinds(d, q, names[1..], k - 1);
    }
  }

  /** Two month names that agree, ignoring case, on their first three
      letters are the same name. */
  lemma SameTripleSameMonth(j: nat, k: nat)
    requires j < |MonthNames| && k < |MonthNames|
    requires |MonthNames[j]| >= 3 && |MonthNames[k]| >= 3
    requires forall t :: 0 <= t < 3 ==> LowerChar(MonthNames[j][t]) == LowerChar(MonthNames[k][t])
    ensures j == k
  {
    MonthTriples();
    assert LowerChar(MonthNames[j][0]) == LowerChar(MonthNames[k][0]);
    assert LowerChar(MonthNames[j][1]) == LowerChar(MonthNames[k][1]);
    assert LowerChar(MonthNames[j][2]) == LowerChar(MonthNames[k][2]);
  }

  /** Every character of a month name is a letter. */
  lemma MonthLetter(k: nat, t: nat)
    requires k < |MonthNames| && t < |MonthNames[k]|
    ensures IsLetter(MonthNames[k][t])
  {
    AlphaMonthNames();
  }

  /** Every month name has at least three letters. */
  lemma MonthLength(k: nat)
    requires k < |MonthNames|
    ensures |MonthNames[k]| >= 3
  {
    MonthTriples();
  }

  /** A month name written at `q` and not followed by a letter is the month
      the alternation takes there, whatever its place in the list: no month
      name is the beginning of another. */
  lemma MonthNameAtExact(d: string, q: nat, k: nat)
    requires k < |MonthNames| && q + |MonthNames[k]| <= |d|
    requires EqualsIgnoringCase(d[q..q + |MonthNames[k]|], MonthNames[k])
    requires q + |MonthNames[k]| == |d| || !IsLetter(d[q + |MonthNames[k]|])
    ensures MonthNameAt(d, q) == Some(d[q..q + |MonthNames[k]|])
  {
    MonthAtFinds(d, q, MonthNames, k);
    var m := MonthNameAt(d, q).value;
    MonthOfSome(m, MonthNames);
    var j :| 0 <= j < |MonthNames| && EqualsIgnoringCase(m, MonthNames[j]);
    SameMonthLength(d, q, m, j, k);
  }

  /** Two month names written at the same place, the second not followed by
      a letter, have the same length. */
  lemma SameMonthLength(d: string, q: nat, m: string, j: nat, k: nat)
    requires j < |MonthNames| && k < |MonthNames| && q + |MonthNames[k]| <= |d|
    requires q + |m| <= |d| && m == d[q..q + |m|] && EqualsIgnoringCase(m, MonthNames[j])
    requires EqualsIgnoringCase(d[q..q + |MonthNames[k]|], MonthNames[k])
    requires q + |MonthNames[k]| == |d| || !IsLetter(d[q + |MonthNames[k]|])
    ensures |m| == |MonthNames[k]|
  {
    var n, o := MonthNames[k], MonthNames[j];
    if |o| > |n| {
      assert m[|n|] == d[q + |n|];
      MonthLetter(j, |n|);
      assert false;
    } else if |o| < |n| {
      MonthLength(j);
      forall t | 0 <= t < 3 ensures LowerChar(o[t]) == LowerChar(n[t]) {
        assert LowerChar(m[t]) == LowerChar(o[t]);
        assert m[t] == d[q + t] == d[q..q + |n|][t];
        assert LowerChar(d[q..q + |n|][t]) == LowerChar(n[t]);
      }
      SameTripleSameMonth(j, k);
      assert false;
    }
  }

  /** The whitespace in `d[from..to]`, index by index. */
  lemma SpaceBetween(d: string, from: nat, stop: nat)
    requires from <= stop <= |d| && AllSpace(d[from..stop])
    ensures forall j :: from <= j < stop ==> IsSpace(d[j])
  {
    forall j | from <= j < stop ensures IsSpace(d[j]) {
      assert d[from..stop][j - from] == d[j];
    }
  }

  /** A letter is not whitespace. */
  lemma LetterNotSpace(c: char)
    requires IsLetter(c)
    ensures !IsSpace(c)
  {
  }

  /** The day-month-year pattern matches text of its shape: one or two
      digits, whitespace, a month name in any case, whitespace, four
      digits. */
  lemma DayMonthYearAtFinds(d: string, i: nat, a: nat, q: nat, k: nat, t: nat)
    requires 1 <= a <= 2 && i + a < q && k < |MonthNames| && q + |MonthNames[k]| < t && t + 4 <= |d|
    requires AllDigits(d[i..i + a]) && AllSpace(d[i + a..q])
    requires EqualsIgnoringCase(d[q..q + |MonthNames[k]|], MonthNames[k])
    requires AllSpace(d[q + |MonthNames[k]|..t]) && FourDigitsAt(d, t)
    ensures DayMonthYearAt(d, i) == Some([d[i..i + a], d[q..q + |MonthNames[k]|], d[t..t + 4]])
  {
    DayBeforeSpace(d, i, a, q);
    MonthYearAtFinds(d, i + a, q, k, t);
    DayMonthYearAtParts(d, i, a, (d[q..q + |MonthNames[k]|], q, t));
  }

  /** One or two digits followed by whitespace are the day. */
  lemma DayBeforeSpace(d: string, i: nat, a: nat, q: nat)
    requires 1 <= a <= 2 && i + a < q <= |d|
    requires AllDigits(d[i..i + a]) && AllSpace(d[i + a..q])
    ensures Digits12(d, i) == a
  {
    assert IsSpace(d[i + a]) by { assert d[i + a..q][0] == d[i + a]; }
    DigitsThenOther(d, i, a);
  }

  /** Pattern 1 at `i` once the day's length and the tail are known. */
  lemma DayMonthYearAtParts(d: string, i: nat, a: nat, x: (string, nat, nat))
    requires i + a <= |d| && a > 0 && Digits12(d, i) == a
    requires MonthYearAt(d, i + a) == Some(x)
    ensures DayMonthYearAt(d, i) == Some([d[i..i + a], x.0, d[x.2..x.2 + 4]])
  {
  }

  /** The tail of the day-month-year pattern matches text of its shape. */
  lemma MonthYearAtFinds(d: string, j: nat, q: nat, k: nat, t: nat)
    requires j < q && k < |MonthNames| && q + |MonthNames[k]| < t && t + 4 <= |d|
    requires AllSpace(d[j..q])
    requires EqualsIgnoringCase(d[q..q + |MonthNames[k]|], MonthNames[k])
    requires AllSpace(d[q + |MonthNames[k]|..t]) && FourDigitsAt(d, t)
    ensures MonthYearAt(d, j) == Some((d[q..q + |MonthNames[k]|], q, t))
  {
    var r := q + |MonthNames[k]|;
    SpacesThenMonth(d, j, q, k);
    assert IsSpace(d[r]) by { assert d[r..t][0] == d[r]; }
    MonthNameAtExact(d, q, k);
    SpacesThenYear(d, r, t);
    MonthYearFromParts(d, q, d[q..r], t);
    MonthYearAtParts(d, j, q, (d[q..r], q, t));
  }

  /** The tail of pattern 1 once its first whitespace run is known. */
  lemma MonthYearAtParts(d: string, j: nat, q: nat, x: (string, nat, nat))
    requires j < q <= |d| && j + SpaceRun(d, j) == q
    requires MonthYearFrom(d, q) == Some(x)
    ensures MonthYearAt(d, j) == Some(x)
  { }

  /** The month and year of pattern 1 once the month and the year's index
      are known. */
  lemma MonthYearFromParts(d: string, q: nat, m: string, t: nat)
    requires q + |m| < t <= |d| && MonthNameAt(d, q) == Some(m)
    requires YearAfter(d, q + |m|) == Some(t)
    ensures MonthYearFrom(d, q) == Some((m, q, t))
  { }

  /** Whitespace up to a month name is what `\s+` takes before it. */
  lemma SpacesThenMonth(d: string, j: nat, q: nat, k: nat)
    requires j < q && k < |MonthNames| && q + |MonthNames[k]| <= |d|
    requires AllSpace(d[j..q]) && EqualsIgnoringCase(d[q..q + |MonthNames[k]|], MonthNames[k])
    ensures SpaceRun(d, j) == q - j
  {
    SpaceBetween(d, j, q);
    MonthStartsWithLetter(d, q, k);
    SpaceRunTo(d, j, q);
  }

  /** Whitespace up to four digits is what `\s+` takes before the year. */
  lemma SpacesThenYear(d: string, r: nat, t: nat)
    requires r < t && t + 4 <= |d| && AllSpace(d[r..t]) && FourDigitsAt(d, t)
    ensures YearAfter(d, r) == Some(t)
  {
    SpaceBetween(d, r, t);
    assert d[t..t + 4][0] == d[t];
    SpaceRunTo(d, r, t);
  }

  /** Text equal to a month name, ignoring case, starts with a letter. */
  lemma MonthStartsWithLetter(d: string, q: nat, k: nat)
    requires k < |MonthNames| && q + |MonthNames[k]| <= |d|
    requires EqualsIgnoringCase(d[q..q + |MonthNames[k]|], MonthNames[k])
    ensures q < |d| && !IsSpace(d[q])
  {
    MonthLength(k);
    MonthLetter(k, 0);
    assert d[q..q + |MonthNames[k]|][0] == d[q];
    LetterNotSpace(d[q]);
  }

  /** The slashed pattern matches text of its shape: one or two digits, a
      slash, one or two digits, a slash, four digits. */
  lemma SlashedAtFinds(d: string, i: nat, a: nat, b: nat)
    requires 1 <= a <= 2 && 1 <= b <= 2 && i + a + b + 6 <= |d|
    requires AllDigits(d[i..i + a]) && d[i + a] == '/'
    requires AllDigits(d[i + a + 1..i + a + 1 + b]) && d[i + a + 1 + b] == '/'
    requires FourDigitsAt(d, i + a + b + 2)
    ensures SlashedAt(d, i) == Some([d[i..i + a], d[i + a + 1..i + a + 1 + b], d[i + a + b + 2..i + a + b + 6]])
  {
    DigitsThenOther(d, i, a);
    DigitsThenOther(d, i + a + 1, b);
  }

  /** A run of one or two digits followed by a non-digit is what `\d{1,2}`
      takes. */
  lemma DigitsThenOther(d: string, i: nat, a: nat)
    requires 1 <= a <= 2 && i + a <= |d| && AllDigits(d[i..i + a])
    requires a == 1 ==> i + 1 == |d| || !IsDigit(d[i + 1])
    ensures Digits12(d, i) == a
  {
    assert d[i..i + a][0] == d[i];
    if a == 2 { assert d[i..i + a][1] == d[i + 1]; }
  }

  /** The dashed pattern matches text of its shape: four digits, a dash,
      one or two digits, a dash, one or two digits, the last part taken in
      full as `\d{1,2}` is greedy. */
  lemma DashedAtFinds(d: string, i: nat, b: nat, c: nat)
    requires 1 <= b <= 2 && 1 <= c <= 2 && i + b + c + 6 <= |d|
    requires FourDigitsAt(d, i) && d[i + 4] == '-'
    requires AllDigits(d[i + 5..i + 5 + b]) && d[i + 5 + b] == '-'
    requires AllDigits(d[i + 6 + b..i + 6 + b + c])
    requires c == 1 ==> i + 7 + b == |d| || !IsDigit(d[i + 7 + b])
    ensures DashedAt(d, i) == Some([d[i..i + 4], d[i + 5..i + 5 + b], d[i + 6 + b..i + 6 + b + c]])
  {
    DigitsThenOther(d, i + 5, b);
    DigitsThenOther(d, i + 6 + b, c);
  }

  /** The groups of the day-month-year pattern take the first branch. */
  lemma BranchOfDayMonthYear(g: seq<string>, d: string)
    requires |g| == 3 && IsDigitStr(g[0]) && IsDigitStr(g[2]) && IsMonthOf(g[1], MonthNames)
    ensures Branch(g, d) == Some(NamedMonthDate(DigitsValue(g[0]), g[1], DigitsValue(g[2]),
              NatToString(DigitsValue(g[0])) + " " + g[1] + " " + NatToString(DigitsValue(g[2])), d))
  {
    MonthNamesAreAlpha(g[1]);
  }

  /** The groups of the numeric patterns take the numeric branch: month,
      day, year when `d` contains a `/` anywhere, year, month, day otherwise. */
  lemma BranchOfNumeric(g: seq<string>, d: string)
    requires |g| == 3 && IsDigitStr(g[0]) && IsDigitStr(g[1]) && IsDigitStr(g[2])
    ensures '/' in d ==> Branch(g, d) == NumericDateOf(DigitsValue(g[1]), DigitsValue(g[0]), DigitsValue(g[2]), d)
    ensures '/' !in d ==> Branch(g, d) == NumericDateOf(DigitsValue(g[2]), DigitsValue(g[1]), DigitsValue(g[0]), d)
  {
    assert !IsLetter(g[1][0]);
  }

  /** The bare-year search finds exactly the leftmost run of four digits. */
  lemma SearchYearIsLeftmost(d: string, i: nat)
    requires LeftmostFourDigits(d, i)
    ensures Search(Year, d, 0) == Some(Hit(i, [d[i..i + 4]]))
  {
    var r := Search(Year, d, 0);
    assert PatternAt(Year, d, i).Some?;
    assert r.Some?;
    assert FourDigitsAt(d, r.value.pos);
  }

  lemma SearchYearFindsLeftmost(d: string)
    requires Search(Year, d, 0).Some?
    ensures LeftmostFourDigits(d, Search(Year, d, 0).value.pos)
  {
    var h := Search(Year, d, 0).value;
    forall j | 0 <= j < h.pos ensures !FourDigitsAt(d, j) {
      assert PatternAt(Year, d, j).None?;
    }
  }

  /** With no four digits in a row, none of the patterns occurs. */
  lemma NoFourDigitsNoMatch(p: Pattern, d: string)
    requires forall t :: 0 <= t <= |d| ==> !FourDigitsAt(d, t)
    ensures Search(p, d, 0).None?
  {
    if Search(p, d, 0).Some? {
      MatchHasFourDigits(p, d, Search(p, d, 0).value.pos);
    }
  }

  /** A pattern that does not occur passes the turn to the next one. */
  lemma TrySkip(ps: seq<Pattern>, d: string)
    requires ps != [] && Search(ps[0], d, 0).None?
    ensures TryPatterns(ps, d) == TryPatterns(ps[1..], d)
  {
  }

  /** A match of the slashed pattern puts a `/` in the string. */
  lemma SlashedHasSlash(d: string)
    requires Search(Slashed, d, 0).Some?
    ensures '/' in d
  {
    var h := Search(Slashed, d, 0).value;
    var g := h.groups;
    var e := h.pos + |g[0]| + |g[1]| + 6;
    assert d[h.pos..e][|g[0]|] == '/';
  }

  /** Once the first two patterns have not decided, the numeric patterns
      are tried in order, and the raw text is the fallback. */
  lemma NumericStages(d: string)
    ensures Search(Slashed, d, 0).Some? ==>
              var g := Search(Slashed, d, 0).value.groups;
              TryPatterns([Slashed, Dashed], d)
              == NumericDateOf(DigitsValue(g[1]), DigitsValue(g[0]), DigitsValue(g[2]), d)
    ensures Search(Slashed, d, 0).None? && Search(Dashed, d, 0).Some? && '/' in d ==>
              var g := Search(Dashed, d, 0).value.groups;
              TryPatterns([Slashed, Dashed], d)
              == NumericDateOf(DigitsValue(g[1]), DigitsValue(g[0]), DigitsValue(g[2]), d)
    ensures Search(Slashed, d, 0).None? && Search(Dashed, d, 0).Some? && '/' !in d ==>
              var g := Search(Dashed, d, 0).value.groups;
              TryPatterns([Slashed, Dashed], d)
              == NumericDateOf(DigitsValue(g[2]), DigitsValue(g[1]), DigitsValue(g[0]), d)
    ensures Search(Slashed, d, 0).None? && Search(Dashed, d, 0).None? ==>
              TryPatterns([Slashed, Dashed], d).None?
  {
    var ps := [Slashed, Dashed];
    assert ps[1..] == [Dashed] && [Dashed][1..] == [];
    if Search(Slashed, d, 0).None? {
      TrySkip(ps, d);
      if Search(Dashed, d, 0).None? {
        TrySkip([Dashed], d);
      }
    }
    if Search(Slashed, d, 0).Some? {
      var g := Search(Slashed, d, 0).value.groups;
      assert g[0] in g && g[1] in g && g[2] in g;
      SlashedHasSlash(d);
      BranchOfNumeric(g, d);
    } else if Search(Dashed, d, 0).Some? {
      var g := Search(Dashed, d, 0).value.groups;
      assert g[0] in g && g[1] in g && g[2] in g;
      BranchOfNumeric(g, d);
    }
  }

  /** Pattern 1 comes first: wherever a day, a month name and a year occur,
      the leftmost such match decides, and the month is kept as written. */
  lemma DayMonthYearFirst(d: string)
    requires Occurs(DayMonthYear, d)
    ensures var g := Search(DayMonthYear, d, 0).value.groups;
            var day := DigitsValue(g[0]);
            var year := DigitsValue(g[2]);
            TryPatterns(DatePatterns, d)
            == Some(NamedMonthDate(day, g[1], year, NatToString(day) + " " + g[1] + " " + NatToString(year), d))
  {
    SearchOccurs(DayMonthYear, d);
    var g := Search(DayMonthYear, d, 0).value.groups;
    BranchOfDayMonthYear(g, d);
  }

  /** Otherwise the bare-year pattern is next: the leftmost four digits
      decide when their value lies in [1000, 2100]. */
  lemma YearInRangeSecond(d: string, i: nat)
    requires !Occurs(DayMonthYear, d)
    requires LeftmostFourDigits(d, i)
    requires 1000 <= DigitsValue(d[i..i + 4]) <= 2100
    ensures var y := DigitsValue(d[i..i + 4]);
            TryPatterns(DatePatterns, d) == Some(YearOnly(y, NatToString(y), d))
  {
    SearchOccurs(DayMonthYear, d);
    SearchYearIsLeftmost(d, i);
    assert DatePatterns[1..][0] == Year;
  }

  /** A leftmost year outside [1000, 2100] does not stop the loop: the
      numeric patterns decide, and failing them the raw text is kept. */
  lemma YearOutOfRangeFallsThrough(d: string, i: nat)
    requires !Occurs(DayMonthYear, d)
    requires LeftmostFourDigits(d, i)
    requires !(1000 <= DigitsValue(d[i..i + 4]) <= 2100)
    ensures TryPatterns(DatePatterns, d) == TryPatterns([Slashed, Dashed], d)
  {
    SearchOccurs(DayMonthYear, d);
    SearchYearIsLeftmost(d, i);
    assert DatePatterns[1..][0] == Year && DatePatterns[1..][1..] == [Slashed, Dashed];
  }

  /** Without four digits in a row no pattern decides. */
  lemma NoFourDigitsUndecided(d: string)
    requires forall t :: 0 <= t <= |d| ==> !FourDigitsAt(d, t)
    ensures TryPatterns(DatePatterns, d).None?
  {
    NoFourDigitsNoMatch(DayMonthYear, d);
    NoFourDigitsNoMatch(Year, d);
    NoFourDigitsNoMatch(Slashed, d);
    NoFourDigitsNoMatch(Dashed, d);
    var ps := DatePatterns;
    TrySkip(ps, d);
    assert ps[1..][0] == Year;
    TrySkip(ps[1..], d);
    assert ps[1..][1..] == [Slashed, Dashed];
    NumericStages(d);
  }

  /** What the numeric patterns can yield: a numeric date or nothing. */
  lemma NumericStagesShape(d: string)
    ensures TryPatterns([Slashed, Dashed], d).Some? ==> TryPatterns([Slashed, Dashed], d).value.NumericDate?
  {
    NumericStages(d);
  }

  /** The outcome of the pattern loop, classified by the shape of the
      cleaned text. */
  lemma Classify(d: string)
    ensures Occurs(DayMonthYear, d) ==> TryPatterns(DatePatterns, d).Some?
                                        && TryPatterns(DatePatterns, d).value.NamedMonthDate?
    ensures !Occurs(DayMonthYear, d) ==>
              match TryPatterns(DatePatterns, d)
              case None => true
              case Some(r) =>
                exists i: nat :: LeftmostFourDigits(d, i)
                  && (r.YearOnly? ==> r.year == DigitsValue(d[i..i + 4]))
                  && (r.YearOnly? || r.NumericDate?)
                  && (r.NumericDate? ==> !(1000 <= DigitsValue(d[i..i + 4]) <= 2100))
  {
    if Occurs(DayMonthYear, d) {
      DayMonthYearFirst(d);
    } else if Search(Year, d, 0).None? {
      forall t | 0 <= t <= |d| ensures !FourDigitsAt(d, t) {
        assert PatternAt(Year, d, t).None?;
      }
      NoFourDigitsUndecided(d);
    } else {
      var i := Search(Year, d, 0).value.pos;
      SearchYearFindsLeftmost(d);
      if 1000 <= DigitsValue(d[i..i + 4]) <= 2100 {
        YearInRangeSecond(d, i);
      } else {
        YearOutOfRangeFallsThrough(d, i);
        NumericStagesShape(d);
      }
    }
  }

  /** A year-only result carries the value of the leftmost four digits of
      the cleaned text, which lies in [1000, 2100], and no day-month-year
      match exists. */
  lemma YearOnlyIsLeftmostYear(s: string)
    requires ParseDate(s).Some? && ParseDate(s).value.YearOnly?
    ensures var d := CleanText(s);
            && !Occurs(DayMonthYear, d)
            && 1000 <= ParseDate(s).value.year <= 2100
            && exists i: nat :: LeftmostFourDigits(d, i) && ParseDate(s).value.year == DigitsValue(d[i..i + 4])
  {
    var d := CleanText(s);
    Classify(d);
    assert TryPatterns(DatePatterns, d) == ParseDate(s);
  }

  /** A numeric result is reached only when the leftmost four digits of the
      cleaned text fall outside [1000, 2100]. */
  lemma NumericOnlyWhenYearOutOfRange(s: string)
    requires ParseDate(s).Some? && ParseDate(s).value.NumericDate?
    ensures var d := CleanText(s);
            && !Occurs(DayMonthYear, d)
            && exists i: nat :: LeftmostFourDigits(d, i) && !(1000 <= DigitsValue(d[i..i + 4]) <= 2100)
  {
    var d := CleanText(s);
    Classify(d);
    assert TryPatterns(DatePatterns, d) == ParseDate(s);
  }

  /** Cleaned text without four digits in a row is kept as it is. */
  lemma NoFourDigitsKeptRaw(s: string)
    requires s != ""
    requires forall t :: 0 <= t <= |CleanText(s)| ==> !FourDigitsAt(CleanText(s), t)
    ensures ParseDate(s) == Some(Unparsed(CleanText(s), CleanText(s)))
  {
    NoFourDigitsUndecided(CleanText(s));
  }

  /** Date text made of digits, letters, slashes, dashes and single spaces
      only. */
  predicate PlainDate(s: string) {
    && Tidy(s)
    && forall j :: 0 <= j < |s| ==> IsDigit(s[j]) || IsLetter(s[j]) || s[j] == '/' || s[j] == '-' || s[j] == ' '
  }

  /** `clean_text` leaves plain date text alone. */
  lemma PlainDateClean(s: string)
    requires PlainDate(s)
    ensures CleanText(s) == s
  {
    assert NoMarkup(s) by {
      forall c | c in s ensures c != '<' && c != '[' && c != '\'' && c != '(' {
        var j :| 0 <= j < |s| && s[j] == c;
      }
    }
    CleanTextUnchanged(s);
  }

  /** Without whitespace the day-month-year pattern matches nowhere. */
  lemma NoSpaceNoDayMonthYear(d: string)
    requires forall j :: 0 <= j < |d| ==> !IsSpace(d[j])
    ensures !Occurs(DayMonthYear, d)
  {
    forall i | 0 <= i <= |d| ensures PatternAt(DayMonthYear, d, i).None? {
      var a := Digits12(d, i);
      if a > 0 {
        assert SpaceRun(d, i + a) == 0;
      }
    }
  }

  /** `"D Month YYYY"` parses as a day, the month as written and a year,
      formatted back the same way with the numbers in decimal. */
  lemma ParseDayMonthYear(day: string, k: nat, m: string, year: string)
    requires IsDigitStr(day) && |day| <= 2
    requires k < |MonthNames| && EqualsIgnoringCase(m, MonthNames[k])
    requires |year| == 4 && AllDigits(year)
    ensures var s := day + " " + m + " " + year;
      var (x, y) := (DigitsValue(day), DigitsValue(year));
      ParseDate(s) == Some(NamedMonthDate(x, m, y, NatToString(x) + " " + m + " " + NatToString(y), s))
  {
    var s := day + " " + m + " " + year;
    DayMonthYearTextMatches(day, k, m, year);
    DayMonthYearTextClean(day, k, m, year);
    DayMonthYearDecides(s, [day, m, year]);
  }

  /** The day-month-year pattern matches `"D Month YYYY"` at the start,
      with the three pieces as its groups. */
  lemma DayMonthYearTextMatches(day: string, k: nat, m: string, year: string)
    requires IsDigitStr(day) && |day| <= 2
    requires k < |MonthNames| && EqualsIgnoringCase(m, MonthNames[k])
    requires |year| == 4 && AllDigits(year)
    ensures DayMonthYearAt(day + " " + m + " " + year, 0) == Some([day, m, year])
  {
    var s := day + " " + m + " " + year;
    MonthTextPlain(m, k);
    DayMonthYearText(day, m, year);
    DayMonthYearAtFinds(s, 0, |day|, |day| + 1, k, |day| + 2 + |m|);
  }

  /** `"D Month YYYY"` is left alone by `clean_text`. */
  lemma DayMonthYearTextClean(day: string, k: nat, m: string, year: string)
    requires IsDigitStr(day) && |day| <= 2
    requires k < |MonthNames| && EqualsIgnoringCase(m, MonthNames[k])
    requires |year| == 4 && AllDigits(year)
    ensures CleanText(day + " " + m + " " + year) == day + " " + m + " " + year
  {
    MonthTextPlain(m, k);
    DayMonthYearText(day, m, year);
    PlainDateClean(day + " " + m + " " + year);
  }

  /** A day-month-year match at the very start decides the parse. */
  lemma DayMonthYearDecides(d: string, g: seq<string>)
    requires CleanText(d) == d && DayMonthYearAt(d, 0) == Some(g)
    ensures var (x, y) := (DigitsValue(g[0]), DigitsValue(g[2]));
      ParseDate(d) == Some(NamedMonthDate(x, g[1], y, NatToString(x) + " " + g[1] + " " + NatToString(y), d))
  {
    assert Search(DayMonthYear, d, 0) == Some(Hit(0, g));
    BranchOfDayMonthYear(g, d);
  }

  /** A word equal to a month name, ignoring case, is a word of letters of
      the name's length. */
  lemma MonthTextPlain(m: string, k: nat)
    requires k < |MonthNames| && EqualsIgnoringCase(m, MonthNames[k])
    ensures |m| == |MonthNames[k]| >= 3 && IsAlphaStr(m) && IsMonthOf(m, MonthNames)
  {
    MonthLength(k);
    MonthAlpha(k);
    CaseEqualAlpha(m, MonthNames[k]);
    MonthOfIndex(m, MonthNames, k);
  }

  lemma MonthAlpha(k: nat)
    requires k < |MonthNames|
    ensures IsAlphaStr(MonthNames[k])
  {
    AlphaMonthNames();
  }

  lemma {:induction false} MonthOfIndex(m: string, names: seq<string>, k: nat)
    requires k < |names| && EqualsIgnoringCase(m, names[k])
    ensures IsMonthOf(m, names)
  {
    if k > 0 && !EqualsIgnoringCase(m, names[0]) {
      assert names[1..][k - 1] == names[k];
      MonthOfIndex(m, names[1..], k - 1);
    }
  }

  /** The pieces of `"D Month YYYY"` sit at their offsets. */
  lemma DayMonthYearSlices(day: string, m: string, year: string)
    requires |year| == 4
    ensures var s := day + " " + m + " " + year;
      var q, t := |day| + 1, |day| + 2 + |m|;
      && |s| == t + 4
      && s[0..|day|] == day && s[|day|..q] == " " && s[q..q + |m|] == m
      && s[q + |m|..t] == " " && s[t..t + 4] == year
  {
    var s := day + " " + m + " " + year;
    var q, t := |day| + 1, |day| + 2 + |m|;
    assert s[0..|day|] == day;
    assert s[|day|..q] == " " by { assert s[|day|] == ' '; }
    assert s[q..q + |m|] == m by {
      forall j | 0 <= j < |m| ensures s[q + j] == m[j] { }
    }
    assert s[q + |m|..t] == " " by { assert s[q + |m|] == ' '; }
    assert s[t..t + 4] == year by {
      forall j | 0 <= j < 4 ensures s[t + j] == year[j] { }
    }
  }

  /** The layout of `"D Month YYYY"`: plain text, with its pieces where the
      day-month-year pattern looks for them. */
  lemma DayMonthYearText(day: string, m: string, year: string)
    requires IsDigitStr(day) && IsAlphaStr(m) && |year| == 4 && AllDigits(year)
    ensures var s := day + " " + m + " " + year;
      var q, t := |day| + 1, |day| + 2 + |m|;
      && PlainDate(s) && |s| == t + 4
      && s[0..|day|] == day && s[t..t + 4] == year
      && AllDigits(s[0..|day|]) && AllSpace(s[|day|..q])
      && s[q..q + |m|] == m && EqualsIgnoringCase(s[q..q + |m|], m)
      && AllSpace(s[q + |m|..t]) && FourDigitsAt(s, t)
  {
    var s := day + " " + m + " " + year;
    var q, t := |day| + 1, |day| + 2 + |m|;
    DayMonthYearSlices(day, m, year);
    forall j | 0 <= j < |s|
      ensures IsDigit(s[j]) || IsLetter(s[j]) || s[j] == ' '
      ensures IsSpace(s[j]) ==> s[j] == ' ' && j + 1 < |s| && !IsSpace(s[j + 1])
    {
      if j < |day| {
        assert s[j] == day[j];
      } else if j == |day| {
        assert s[j + 1] == m[0];
      } else if j < q + |m| {
        assert s[j] == m[j - q];
      } else if j == q + |m| {
        assert s[j + 1] == year[0];
      } else {
        assert s[j] == year[j - t];
      }
    }
  }

  /** `"M/D/YYYY"` with a year outside [1000, 2100]: the bare-year pattern
      passes, and the slashed pattern reads month, day and year. */
  lemma ParseSlashed(a: string, b: string, y: string)
    requires IsDigitStr(a) && |a| <= 2 && IsDigitStr(b) && |b| <= 2
    requires |y| == 4 && AllDigits(y) && !(1000 <= DigitsValue(y) <= 2100)
    ensures var s := a + "/" + b + "/" + y;
      var (month, day, year) := (DigitsValue(a), DigitsValue(b), DigitsValue(y));
      ParseDate(s) == Some(NumericDate(day, month, year, NatToString(year) + "-" + Pad2(month) + "-" + Pad2(day), s))
  {
    var s := a + "/" + b + "/" + y;
    SlashedTextYear(a, b, y);
    SlashedTextClean(a, b, y);
    SlashedTextStage(a, b, y);
    NumericDecides(s, |a| + |b| + 2, y, NumericDateOf(DigitsValue(b), DigitsValue(a), DigitsValue(y), s));
  }

  /** `"M/D/YYYY"` with a year in [1000, 2100] is read as the bare year: the
      bare-year pattern is tried before the slashed one. */
  lemma SlashedInRangeIsYear(a: string, b: string, y: string)
    requires IsDigitStr(a) && |a| <= 2 && IsDigitStr(b) && |b| <= 2
    requires |y| == 4 && AllDigits(y) && 1000 <= DigitsValue(y) <= 2100
    ensures var s := a + "/" + b + "/" + y;
      ParseDate(s) == Some(YearOnly(DigitsValue(y), NatToString(DigitsValue(y)), s))
  {
    var s := a + "/" + b + "/" + y;
    SlashedTextClean(a, b, y);
    SlashedYearStage(a, b, y);
    CleanDecides(s, Some(YearOnly(DigitsValue(y), NatToString(DigitsValue(y)), s)));
  }

  /** The date patterns make the bare year of `"M/D/YYYY"` when it is in range. */
  lemma SlashedYearStage(a: string, b: string, y: string)
    requires IsDigitStr(a) && |a| <= 2 && IsDigitStr(b) && |b| <= 2
    requires |y| == 4 && AllDigits(y) && 1000 <= DigitsValue(y) <= 2100
    ensures var s := a + "/" + b + "/" + y;
      TryPatterns(DatePatterns, s) == Some(YearOnly(DigitsValue(y), NatToString(DigitsValue(y)), s))
  {
    var s := a + "/" + b + "/" + y;
    SlashedTextYear(a, b, y);
    YearHit(s, |a| + |b| + 2, y);
    SearchOccurs(DayMonthYear, s);
    YearInRangeSecond(s, |a| + |b| + 2);
  }

  /** On cleaned text, `parse_date` returns what the date patterns make. */
  lemma CleanDecides(d: string, r: Option<ParsedDate>)
    requires d != "" && CleanText(d) == d && TryPatterns(DatePatterns, d) == r && r.Some?
    ensures ParseDate(d) == r
  { }

  /** In `"M/D/YYYY"` no day-month-year match exists and the year is the
      leftmost run of four digits. */
  lemma SlashedTextYear(a: string, b: string, y: string)
    requires IsDigitStr(a) && |a| <= 2 && IsDigitStr(b) && |b| <= 2 && |y| == 4 && AllDigits(y)
    ensures var s := a + "/" + b + "/" + y;
      Search(DayMonthYear, s, 0).None? && Search(Year, s, 0) == Some(Hit(|a| + |b| + 2, [y]))
  {
    var s := a + "/" + b + "/" + y;
    SlashedText(a, b, y);
    NoSpaceNoDayMonthYear(s);
    SearchOccurs(DayMonthYear, s);
    SearchYearIsLeftmost(s, |a| + |b| + 2);
  }

  /** `"M/D/YYYY"` is left alone by `clean_text`. */
  lemma SlashedTextClean(a: string, b: string, y: string)
    requires IsDigitStr(a) && |a| <= 2 && IsDigitStr(b) && |b| <= 2 && |y| == 4 && AllDigits(y)
    ensures CleanText(a + "/" + b + "/" + y) == a + "/" + b + "/" + y
  {
    SlashedText(a, b, y);
    PlainDateClean(a + "/" + b + "/" + y);
  }

  /** The slashed pattern finds `"M/D/YYYY"` at the start, with the three
      pieces as its groups. */
  lemma SlashedTextSearch(a: string, b: string, y: string)
    requires IsDigitStr(a) && |a| <= 2 && IsDigitStr(b) && |b| <= 2 && |y| == 4 && AllDigits(y)
    ensures Search(Slashed, a + "/" + b + "/" + y, 0) == Some(Hit(0, [a, b, y]))
  {
    var s := a + "/" + b + "/" + y;
    SlashedText(a, b, y);
    SlashedAtFinds(s, 0, |a|, |b|);
    assert PatternAt(Slashed, s, 0) == Some([a, b, y]);
  }

  /** The numeric patterns read `"M/D/YYYY"` month first. */
  lemma SlashedTextStage(a: string, b: string, y: string)
    requires IsDigitStr(a) && |a| <= 2 && IsDigitStr(b) && |b| <= 2 && |y| == 4 && AllDigits(y)
    ensures var s := a + "/" + b + "/" + y;
      TryPatterns([Slashed, Dashed], s) == NumericDateOf(DigitsValue(b), DigitsValue(a), DigitsValue(y), s)
  {
    SlashedTextSearch(a, b, y);
    NumericStages(a + "/" + b + "/" + y);
  }

  /** Cleaned text without a day-month-year match whose leftmost year `y`
      is out of range is what the numeric patterns make of it, when they
      make something. */
  lemma NumericDecides(d: string, p: nat, y: string, r: Option<ParsedDate>)
    requires CleanText(d) == d && Search(DayMonthYear, d, 0).None?
    requires Search(Year, d, 0) == Some(Hit(p, [y])) && !(1000 <= DigitsValue(y) <= 2100)
    requires TryPatterns([Slashed, Dashed], d) == r && r.Some?
    ensures ParseDate(d) == r
  {
    YearHit(d, p, y);
    SearchOccurs(DayMonthYear, d);
    YearOutOfRangeFallsThrough(d, p);
  }

  /** Cleaned text without a day-month-year match whose leftmost year `y`
      is in range is that year. */
  lemma YearDecides(d: string, p: nat, y: string)
    requires CleanText(d) == d && Search(DayMonthYear, d, 0).None?
    requires Search(Year, d, 0) == Some(Hit(p, [y])) && 1000 <= DigitsValue(y) <= 2100
    ensures ParseDate(d) == Some(YearOnly(DigitsValue(y), NatToString(DigitsValue(y)), d))
  {
    YearHit(d, p, y);
    SearchOccurs(DayMonthYear, d);
    YearInRangeSecond(d, p);
  }

  /** A hit of the bare-year pattern is the leftmost run of four digits. */
  lemma YearHit(d: string, p: nat, y: string)
    requires Search(Year, d, 0) == Some(Hit(p, [y]))
    ensures LeftmostFourDigits(d, p) && p + 4 <= |d| && d[p..p + 4] == y
  {
    YearHitText(d, p, y);
    SearchYearFindsLeftmost(d);
  }

  /** The group of a bare-year hit is the text at the hit. */
  lemma YearHitText(d: string, p: nat, y: string)
    requires Search(Year, d, 0) == Some(Hit(p, [y]))
    ensures p + 4 <= |d| && d[p..p + 4] == y
  {
    assert PatternAt(Year, d, p) == Some([y]);
    assert [y][0] == y;
  }

  /** The layout of `"M/D/YYYY"`: plain text without whitespace, whose first
      four digits in a row are the year. */
  lemma SlashedText(a: string, b: string, y: string)
    requires IsDigitStr(a) && |a| <= 2 && IsDigitStr(b) && |b| <= 2 && |y| == 4 && AllDigits(y)
    ensures var s := a + "/" + b + "/" + y;
      var p := |a| + |b| + 2;
      && PlainDate(s) && |s| == p + 4
      && (forall j :: 0 <= j < |s| ==> !IsSpace(s[j]))
      && LeftmostFourDigits(s, p) && s[p..p + 4] == y
      && s[0..|a|] == a && s[|a| + 1..|a| + 1 + |b|] == b
      && AllDigits(s[0..|a|]) && s[|a|] == '/'
      && AllDigits(s[|a| + 1..|a| + 1 + |b|]) && s[|a| + 1 + |b|] == '/'
  {
    var s := a + "/" + b + "/" + y;
    var p := |a| + |b| + 2;
    assert s[0..|a|] == a && s[|a| + 1..|a| + 1 + |b|] == b && s[p..p + 4] == y;
    forall j | 0 <= j < |s| ensures (IsDigit(s[j]) || s[j] == '/') && !IsSpace(s[j]) {
      if j < |a| {
        assert s[j] == a[j];
      } else if j == |a| {
      } else if j < |a| + 1 + |b| {
        assert s[j] == b[j - |a| - 1];
      } else if j == |a| + 1 + |b| {
      } else {
        assert s[j] == y[j - p];
      }
    }
    forall j | 0 <= j < p ensures !FourDigitsAt(s, j) {
      var slash := if j <= |a| then |a| else |a| + 1 + |b|;
      assert s[j..j + 4][slash - j] == s[slash] == '/';
    }
  }

  /** `"YYYY-M-D"` with a year outside [1000, 2100]: the bare-year pattern
      passes, the slashed one finds nothing, and the dashed one reads year,
      month and day. */
  lemma ParseDashed(y: string, m: string, dd: string)
    requires |y| == 4 && AllDigits(y) && !(1000 <= DigitsValue(y) <= 2100)
    requires IsDigitStr(m) && |m| <= 2 && IsDigitStr(dd) && |dd| <= 2
    ensures var s := y + "-" + m + "-" + dd;
      var (year, month, day) := (DigitsValue(y), DigitsValue(m), DigitsValue(dd));
      ParseDate(s) == Some(NumericDate(day, month, year, NatToString(year) + "-" + Pad2(month) + "-" + Pad2(day), s))
  {
    var s := y + "-" + m + "-" + dd;
    DashedTextYear(y, m, dd);
    DashedTextClean(y, m, dd);
    DashedTextStage(y, m, dd);
    NumericDecides(s, 0, y, NumericDateOf(DigitsValue(dd), DigitsValue(m), DigitsValue(y), s));
  }

  /** In `"YYYY-M-D"` no day-month-year match exists and the year is the
      leftmost run of four digits. */
  lemma DashedTextYear(y: string, m: string, dd: string)
    requires |y| == 4 && AllDigits(y) && IsDigitStr(m) && |m| <= 2 && IsDigitStr(dd) && |dd| <= 2
    ensures var s := y + "-" + m + "-" + dd;
      Search(DayMonthYear, s, 0).None? && Search(Year, s, 0) == Some(Hit(0, [y]))
  {
    var s := y + "-" + m + "-" + dd;
    DashedText(y, m, dd);
    NoSpaceNoDayMonthYear(s);
    SearchOccurs(DayMonthYear, s);
    SearchYearIsLeftmost(s, 0);
  }

  /** `"YYYY-M-D"` is left alone by `clean_text`. */
  lemma DashedTextClean(y: string, m: string, dd: string)
    requires |y| == 4 && AllDigits(y) && IsDigitStr(m) && |m| <= 2 && IsDigitStr(dd) && |dd| <= 2
    ensures CleanText(y + "-" + m + "-" + dd) == y + "-" + m + "-" + dd
  {
    DashedText(y, m, dd);
    PlainDateClean(y + "-" + m + "-" + dd);
  }

  /** In `"YYYY-M-D"` the slashed pattern finds nothing and the dashed one
      matches at the start, with the three pieces as its groups. */
  lemma DashedTextSearch(y: string, m: string, dd: string)
    requires |y| == 4 && AllDigits(y) && IsDigitStr(m) && |m| <= 2 && IsDigitStr(dd) && |dd| <= 2
    ensures var s := y + "-" + m + "-" + dd;
      Search(Slashed, s, 0).None? && Search(Dashed, s, 0) == Some(Hit(0, [y, m, dd]))
  {
    var s := y + "-" + m + "-" + dd;
    DashedText(y, m, dd);
    if Search(Slashed, s, 0).Some? {
      SlashedHasSlash(s);
    }
    DashedAtFinds(s, 0, |m|, |dd|);
    assert PatternAt(Dashed, s, 0) == Some([y, m, dd]);
  }

  /** The numeric patterns read `"YYYY-M-D"` year first. */
  lemma DashedTextStage(y: string, m: string, dd: string)
    requires |y| == 4 && AllDigits(y) && IsDigitStr(m) && |m| <= 2 && IsDigitStr(dd) && |dd| <= 2
    ensures var s := y + "-" + m + "-" + dd;
      TryPatterns([Slashed, Dashed], s) == NumericDateOf(DigitsValue(dd), DigitsValue(m), DigitsValue(y), s)
  {
    DashedText(y, m, dd);
    DashedTextSearch(y, m, dd);
    NumericStages(y + "-" + m + "-" + dd);
  }

  /** The layout of `"YYYY-M-D"`: plain text without whitespace or slash,
      starting with four digits. */
  lemma DashedText(y: string, m: string, dd: string)
    requires |y| == 4 && AllDigits(y) && IsDigitStr(m) && |m| <= 2 && IsDigitStr(dd) && |dd| <= 2
    ensures var s := y + "-" + m + "-" + dd;
      && PlainDate(s) && |s| == 6 + |m| + |dd| && '/' !in s
      && (forall j :: 0 <= j < |s| ==> !IsSpace(s[j]))
      && LeftmostFourDigits(s, 0) && s[0..4] == y
      && s[5..5 + |m|] == m && s[6 + |m|..6 + |m| + |dd|] == dd
      && s[4] == '-' && AllDigits(s[5..5 + |m|]) && s[5 + |m|] == '-'
      && AllDigits(s[6 + |m|..6 + |m| + |dd|])
  {
    var s := y + "-" + m + "-" + dd;
    assert s[0..4] == y && s[5..5 + |m|] == m && s[6 + |m|..] == dd;
    forall j | 0 <= j < |s| ensures (IsDigit(s[j]) || s[j] == '-') && !IsSpace(s[j]) {
      if j < 4 {
        assert s[j] == y[j];
      } else if j == 4 {
      } else if j < 5 + |m| {
        assert s[j] == m[j - 5];
      } else if j == 5 + |m| {
      } else {
        assert s[j] == dd[j - 6 - |m|];
      }
    }
  }

  /** The canonical day-month-year example. */
  lemma ParseMarch()
    ensures ParseDate("15 March 1879")
            == Some(NamedMonthDate(15, "March", 1879, "15 March 1879", "15 March 1879"))
  {
    assert EqualsIgnoringCase("March", MonthNames[2]);
    ParseDayMonthYear("15", 2, "March", "1879");
    MarchText();
    DecimalFacts();
  }

  /** The example text is the day, month name and year joined by spaces. */
  lemma MarchText()
    ensures "15" + " " + "March" + " " + "1879" == "15 March 1879"
  { }

  /** The canonical slashed and dashed examples, with a year the bare-year
      pattern leaves alone. */
  lemma ParseNumericExamples()
    ensures ParseDate("3/14/0999") == Some(NumericDate(14, 3, 999, "999-03-14", "3/14/0999"))
    ensures ParseDate("0999-3-14") == Some(NumericDate(14, 3, 999, "999-03-14", "0999-3-14"))
  {
    DecimalFacts();
    ParseSlashed("3", "14", "0999");
    NumericTexts();
    ParseDashed("0999", "3", "14");
  }

  /** The numeric examples are their parts joined by their separators. */
  lemma NumericTexts()
    ensures "3" + "/" + "14" + "/" + "0999" == "3/14/0999"
    ensures "0999" + "-" + "3" + "-" + "14" == "0999-3-14"
    ensures "999" + "-" + "03" + "-" + "14" == "999-03-14"
  { }

  /** The decimal conversions the examples need. */
  lemma DecimalFacts()
    ensures DigitsValue("15") == 15 && NatToString(15) == "15"
    ensures DigitsValue("1879") == 1879 && NatToString(1879) == "1879"
    ensures DigitsValue("3") == 3 && DigitsValue("14") == 14 && DigitsValue("0999") == 999
    ensures NatToString(999) == "999" && Pad2(3) == "03" && Pad2(14) == "14"
  {
    DigitFacts();
    YearDigitFacts();
    NatToStringFacts();
  }

  lemma DigitFacts()
    ensures DigitsValue("15") == 15 && DigitsValue("3") == 3 && DigitsValue("14") == 14
  {
    assert "15"[..1] == "1" && "14"[..1] == "1";
  }

  lemma YearDigitFacts()
    ensures DigitsValue("1879") == 1879 && DigitsValue("0999") == 999
  {
    assert "1879"[..3] == "187" && "187"[..2] == "18" && "18"[..1] == "1";
    assert "0999"[..3] == "099" && "099"[..2] == "09" && "09"[..1] == "0";
  }

  lemma NatToStringFacts()
    ensures NatToString(15) == "15" && NatToString(1879) == "1879" && NatToString(999) == "999"
    ensures Pad2(3) == "03" && Pad2(14) == "14"
  {
    assert NatToString(1) == "1" && NatToString(18) == "18" && NatToString(187) == "187";
    assert NatToString(9) == "9" && NatToString(99) == "99";
    assert NatToString(14) == "14" && NatToString(3) == "3";
  }
}
