/** `WikipediaClient._parse_infobox`: six infobox fields read out of the
    wikitext with `\|\s*KEY\s*=\s*([^\n|]*)`, ignoring case, each the first
    match in the text and stripped. */
module Infobox {
  import opened Values
  import opened Text

  /** The fields read, in the order the parser looks for them. */
  const InfoboxKeys: seq<string> :=
    ["birth_date", "death_date", "birth_place", "death_place", "occupation", "nationality"]

  /** A field name of the shape the parser uses: lower-case letters and
      underscores, so that no character of it is whitespace or `=`. */
  predicate KeyShaped(key: string) {
    |key| > 0 && forall i :: 0 <= i < |key| ==> ('a' <= key[i] <= 'z' || key[i] == '_')
  }

  lemma InfoboxKeysShaped(key: string)
    requires key in InfoboxKeys
    ensures KeyShaped(key)
  {
  }

  /** A character `[^\n|]` stops at. */
  predicate IsBreak(c: char) {
    c == '\n' || c == '|'
  }

  /** The end of what `[^\n|]*` takes from `from`. */
  function ValueEnd(s: string, from: nat): (k: nat)
    requires from <= |s|
    ensures from <= k <= |s|
    ensures forall j :: from <= j < k ==> !IsBreak(s[j])
    ensures k == |s| || IsBreak(s[k])
    decreases |s| - from
  {
    if from == |s| || IsBreak(s[from]) then from else ValueEnd(s, from + 1)
  }

  /** Where `\|\s*KEY\s*=` ends when it matches at `i`, just past the
      `=`. Each `\s*` is greedy and the item after it is never whitespace,
      so the first way the pattern can match is the one taken. */
  function HeadEnd(s: string, i: nat, key: string): (e: Option<nat>)
    requires i <= |s|
    ensures e.Some? ==> i < e.value <= |s| && s[e.value - 1] == '='
  {
    if i < |s| && s[i] == '|' then
      var a := i + 1 + SpaceRun(s, i + 1);
      if a + |key| <= |s| && EqualsIgnoringCase(s[a..a + |key|], key) then
        var b := a + |key| + SpaceRun(s, a + |key|);
        if b < |s| && s[b] == '=' then Some(b + 1) else None
      else None
    else None
  }

  /** `val` is what `\s*([^\n|]*)` captures from `e`, starting at `v`: the
      whole whitespace run from `e` (line breaks included) ends at `v`, and
      the capture runs from there to the first line break or bar, or to the
      end of the text. */
  predicate ValueFrom(s: string, e: nat, v: nat, val: string) {
    && e <= v && v + |val| <= |s|
    && AllSpace(s[e..v]) && (v < |s| ==> !IsSpace(s[v]))
    && s[v..v + |val|] == val
    && (forall j :: 0 <= j < |val| ==> !IsBreak(val[j]))
    && (v + |val| == |s| || IsBreak(s[v + |val|]))
  }

  /** The capture from `e` is determined: at most one start and one value
      fit. */
  lemma ValueFromUnique(s: string, e: nat, v: nat, val: string, w: nat, wal: string)
    requires ValueFrom(s, e, v, val) && ValueFrom(s, e, w, wal)
    ensures v == w && val == wal
  {
    forall j | e <= j < v ensures IsSpace(s[j]) { assert s[e..v][j - e] == s[j]; }
    forall j | e <= j < w ensures IsSpace(s[j]) { assert s[e..w][j - e] == s[j]; }
    forall j | v <= j < v + |val| ensures !IsBreak(s[j]) { assert s[v..v + |val|][j - v] == s[j]; }
    forall j | w <= j < w + |wal| ensures !IsBreak(s[j]) { assert s[w..w + |wal|][j - w] == s[j]; }
  }

  /** The field pattern for `key` tried at index `i`: the captured group on
      a match, after the whitespace that follows `=`. */
  function FieldAt(s: string, i: nat, key: string): (r: Option<string>)
    requires i <= |s|
    ensures r.Some? <==> HeadEnd(s, i, key).Some?
    ensures r.Some? ==> forall j :: 0 <= j < |r.value| ==> !IsBreak(r.value[j])
    ensures r.Some? && |r.value| > 0 ==> !IsSpace(r.value[0])
    ensures r.Some? ==> exists v: nat :: ValueFrom(s, HeadEnd(s, i, key).value, v, r.value)
  {
    match HeadEnd(s, i, key)
    case None => None
    case Some(e) =>
      var v := e + SpaceRun(s, e);
      var val := s[v..ValueEnd(s, v)];
      assert ValueFrom(s, e, v, val);
      Some(val)
  }

  /** `\|\s*KEY\s*=` matches at `i`, stated without the scanner: a bar, some
      whitespace, the key in any case, more whitespace, and `=`. */
  ghost predicate HeadAt(s: string, i: nat, key: string) {
    exists a: nat, b: nat :: HeadSplit(s, i, key, a, b)
  }

  /** The split of a header match into its whitespace runs. */
  ghost predicate HeadSplit(s: string, i: nat, key: string, a: nat, b: nat) {
    && i < a <= |s| && a + |key| <= b < |s|
    && s[i] == '|'
    && AllSpace(s[i + 1..a])
    && EqualsIgnoringCase(s[a..a + |key|], key)
    && AllSpace(s[a + |key|..b])
    && s[b] == '='
  }

  /** A whitespace run ending just before a non-space character is the
      greedy run from its start. */
  lemma GreedyRun(s: string, from: nat, to: nat)
    requires from <= to < |s|
    requires AllSpace(s[from..to]) && !IsSpace(s[to])
    ensures SpaceRun(s, from) == to - from
  {
  }

  /** A scanner match fits the declarative header. */
  lemma FieldAtHead(s: string, i: nat, key: string)
    requires i <= |s| && FieldAt(s, i, key).Some?
    ensures HeadAt(s, i, key)
  {
    var a := i + 1 + SpaceRun(s, i + 1);
    var b := a + |key| + SpaceRun(s, a + |key|);
    assert HeadSplit(s, i, key, a, b);
  }

  /** Any split that fits the header is the one the greedy scanner finds. */
  lemma HeadFieldAt(s: string, i: nat, key: string, a: nat, b: nat)
    requires KeyShaped(key) && HeadSplit(s, i, key, a, b)
    ensures FieldAt(s, i, key).Some?
  {
    KeyStartNotSpace(s, a, key);
    GreedyRun(s, i + 1, a);
    GreedyRun(s, a + |key|, b);
    HeadEndParts(s, i, key, a, b);
  }

  /** The scanner's header, once its whitespace runs are known. */
  lemma HeadEndParts(s: string, i: nat, key: string, a: nat, b: nat)
    requires HeadSplit(s, i, key, a, b)
    requires SpaceRun(s, i + 1) == a - (i + 1) && SpaceRun(s, a + |key|) == b - (a + |key|)
    ensures HeadEnd(s, i, key) == Some(b + 1)
  {
    assert i < |s| && s[i] == '|' && s[b] == '=';
    assert EqualsIgnoringCase(s[a..a + |key|], key);
  }

  /** Text that equals a key, ignoring case, does not start with
      whitespace. */
  lemma KeyStartNotSpace(s: string, a: nat, key: string)
    requires KeyShaped(key) && a + |key| <= |s|
    requires EqualsIgnoringCase(s[a..a + |key|], key)
    ensures !IsSpace(s[a])
  {
    assert s[a..a + |key|][0] == s[a];
    assert LowerChar(s[a]) == LowerChar(key[0]);
  }

  /** The scanner agrees with the declarative header: the pattern matches at
      `i` exactly when some split of the text fits it. */
  lemma FieldAtIffHead(s: string, i: nat, key: string)
    requires i <= |s| && KeyShaped(key)
    ensures FieldAt(s, i, key).Some? <==> HeadAt(s, i, key)
  {
    if FieldAt(s, i, key).Some? {
      FieldAtHead(s, i, key);
    }
    if HeadAt(s, i, key) {
      var a: nat, b: nat :| HeadSplit(s, i, key, a, b);
      HeadFieldAt(s, i, key, a, b);
    }
  }

  /** `i` is the leftmost index at or after `from` where the field pattern
      for `key` matches. */
  ghost predicate FirstFieldAt(s: string, key: string, from: nat, i: nat) {
    from <= i <= |s| && FieldAt(s, i, key).Some?
    && forall j :: from <= j < i ==> FieldAt(s, j, key).None?
  }

  /** A search that fails at `from` and succeeds later finds the leftmost
      match from `from` too. */
  lemma FirstFieldStep(s: string, key: string, from: nat, r: Option<string>)
    requires from < |s| && FieldAt(s, from, key).None?
    requires r.Some? ==> exists i: nat :: FirstFieldAt(s, key, from + 1, i) && FieldAt(s, i, key) == r
    ensures r.Some? ==> exists i: nat :: FirstFieldAt(s, key, from, i) && FieldAt(s, i, key) == r
  {
    if r.Some? {
      var i: nat :| FirstFieldAt(s, key, from + 1, i) && FieldAt(s, i, key) == r;
      assert FirstFieldAt(s, key, from, i);
    }
  }

  /** `re.search` of the field pattern from `from`: the group of the
      leftmost match. */
  function FindField(s: string, key: string, from: nat): (r: Option<string>)
    requires from <= |s|
    ensures r.None? <==> forall i :: from <= i <= |s| ==> FieldAt(s, i, key).None?
    ensures r.Some? ==> exists i: nat :: FirstFieldAt(s, key, from, i) && FieldAt(s, i, key) == r
    decreases |s| - from
  {
    match FieldAt(s, from, key)
    case Some(v) => assert FirstFieldAt(s, key, from, from); Some(v)
    case None =>
      if from == |s| then None
      else
        var r := FindField(s, key, from + 1);
        FirstFieldStep(s, key, from, r);
        r
  }

  /** A field is found exactly when the text declares it somewhere. */
  lemma FoundIffDeclared(content: string, key: string)
    requires KeyShaped(key)
    ensures FindField(content, key, 0).Some? <==> exists i: nat :: i <= |content| && HeadAt(content, i, key)
  {
    if FindField(content, key, 0).Some? {
      var i: nat :| FirstFieldAt(content, key, 0, i) && FieldAt(content, i, key) == FindField(content, key, 0);
      FieldAtIffHead(content, i, key);
    } else {
      forall i: nat | i <= |content| ensures !HeadAt(content, i, key) {
        FieldAtIffHead(content, i, key);
      }
    }
  }

  /** Stripping keeps a text free of line breaks and bars. */
  lemma StripNoBreak(g: string)
    requires forall j :: 0 <= j < |g| ==> !IsBreak(g[j])
    ensures forall j :: 0 <= j < |Strip(g)| ==> !IsBreak(Strip(g)[j])
  {
    var t := Strip(g);
    var p :| 0 <= p <= |g| && InfixAt(t, g, p);
    forall j | 0 <= j < |t| ensures !IsBreak(t[j]) {
      assert t[j] == g[p + j];
    }
  }

  /** A found value, stripped, holds no line break or bar and no whitespace
      at either end. */
  lemma FoundValueClean(content: string, key: string)
    requires FindField(content, key, 0).Some?
    ensures var t := Strip(FindField(content, key, 0).value);
      (forall j :: 0 <= j < |t| ==> !IsBreak(t[j]))
      && (|t| > 0 ==> !IsSpace(t[0]) && !IsSpace(t[|t| - 1]))
  {
    var g := FindField(content, key, 0).value;
    var i: nat :| FirstFieldAt(content, key, 0, i) && FieldAt(content, i, key) == Some(g);
    StripNoBreak(g);
  }

  /** `_parse_infobox(content)`: each of the six fields that is declared in
      the text, with its first declaration's value stripped. */
  function ParseInfobox(content: string): (m: map<string, string>)
    ensures forall k :: k in m ==> k in InfoboxKeys
    ensures forall k :: k in InfoboxKeys ==> (k in m <==> exists i: nat :: i <= |content| && HeadAt(content, i, k))
    ensures forall k :: k in m ==> forall j :: 0 <= j < |m[k]| ==> !IsBreak(m[k][j])
    ensures forall k :: k in m ==> |m[k]| > 0 ==> !IsSpace(m[k][0]) && !IsSpace(m[k][|m[k]| - 1])
  {
    map k | k in InfoboxKeys && FieldValue(content, k).Some? :: FieldValue(content, k).value
  }

  /** Lines free of breaks and trimmed, as the parser stores values. */
  predicate CleanValue(t: string) {
    (forall j :: 0 <= j < |t| ==> !IsBreak(t[j]))
    && (|t| > 0 ==> !IsSpace(t[0]) && !IsSpace(t[|t| - 1]))
  }

  /** One entry of the parsed infobox: the stripped value of the first
      declaration of `key`, if there is one. */
  function FieldValue(content: string, key: string): (r: Option<string>)
    requires key in InfoboxKeys
    ensures r.Some? <==> exists i: nat :: i <= |content| && HeadAt(content, i, key)
    ensures r.Some? ==> CleanValue(r.value)
    ensures r.Some? ==> FindField(content, key, 0).Some? && r.value == Strip(FindField(content, key, 0).value)
  {
    InfoboxKeysShaped(key);
    FoundIffDeclared(content, key);
    match FindField(content, key, 0)
    case None => None
    case Some(g) =>
      FoundValueClean(content, key);
      Some(Strip(g))
  }

  /** Where the leftmost match is, the search finds it. */
  lemma FindFieldAt(s: string, key: string, i: nat)
    requires i <= |s| && FieldAt(s, i, key).Some?
    requires forall j :: 0 <= j < i ==> FieldAt(s, j, key).None?
    ensures FindField(s, key, 0) == FieldAt(s, i, key)
  {
    assert FindField(s, key, 0).Some?;
    var i': nat :| FirstFieldAt(s, key, 0, i') && FieldAt(s, i', key) == FindField(s, key, 0);
  }

  /** The value of a field is what its first declaration holds. */
  lemma ParseInfoboxValue(content: string, key: string)
    requires key in InfoboxKeys && key in ParseInfobox(content)
    ensures FindField(content, key, 0).Some?
    ensures ParseInfobox(content)[key] == Strip(FindField(content, key, 0).value)
  {
  }

  /** One infobox line as editors write it. */
  function FieldLine(key: string, value: string): string {
    "| " + key + " = " + value
  }

  /** `s` holds `FieldLine(key, value)` at index `i`, character by
      character. */
  ghost predicate LineAt(s: string, i: nat, key: string, value: string) {
    && i + |key| + |value| + 5 <= |s|
    && s[i] == '|' && s[i + 1] == ' '
    && s[i + 2..i + 2 + |key|] == key
    && s[i + 2 + |key|] == ' ' && s[i + 3 + |key|] == '=' && s[i + 4 + |key|] == ' '
    && s[i + 5 + |key|..i + 5 + |key| + |value|] == value
  }

  lemma LineAtConcat(before: string, key: string, value: string, after: string)
    ensures LineAt(before + FieldLine(key, value) + after, |before|, key, value)
  {
    var line := FieldLine(key, value);
    var s := before + line + after;
    var i := |before|;
    assert s[i..i + |line|] == line;
    assert line[..2] == "| " && line[2..2 + |key|] == key;
    assert line[2 + |key|..5 + |key|] == " = " && line[5 + |key|..] == value;
    assert s[i..i + 2] == "| ";
    assert s[i + 2 + |key|..i + 5 + |key|] == " = ";
  }

  /** The header of a field line matches where the line starts. */
  lemma LineHead(s: string, i: nat, key: string, value: string)
    requires KeyShaped(key) && LineAt(s, i, key, value)
    ensures HeadEnd(s, i, key) == Some(i + |key| + 4)
  {
    var a := i + 2;
    var b := a + |key| + 1;
    assert s[a] == key[0] by { assert s[a..a + |key|][0] == s[a]; }
    assert EqualsIgnoringCase(s[a..a + |key|], key);
    assert s[i + 1..a] == [' '] && s[a + |key|..b] == [' '];
    assert HeadSplit(s, i, key, a, b);
    GreedyRun(s, i + 1, a);
    GreedyRun(s, a + |key|, b);
    HeadEndParts(s, i, key, a, b);
  }

  /** The field pattern matches a field line where it starts, capturing the
      value. */
  lemma LineField(s: string, i: nat, key: string, value: string)
    requires KeyShaped(key) && LineAt(s, i, key, value)
    requires |value| > 0 && !IsSpace(value[0])
    requires forall j :: 0 <= j < |value| ==> !IsBreak(value[j])
    requires i + |key| + |value| + 5 == |s| || IsBreak(s[i + |key| + |value| + 5])
    ensures FieldAt(s, i, key) == Some(value)
  {
    LineHead(s, i, key, value);
    var e := i + |key| + 4;
    var v := e + 1;
    assert s[v] == value[0] by { assert s[v..v + |value|][0] == s[v]; }
    assert s[e..v] == [' '];
    GreedyRun(s, e, v);
    forall j | v <= j < v + |value| ensures !IsBreak(s[j]) {
      assert s[j] == s[v..v + |value|][j - v];
    }
    ValueEndAt(s, v, v + |value|);
  }

  /** The field pattern matches a field line where it starts, capturing the
      value. */
  lemma FieldLineMatches(before: string, key: string, value: string, after: string)
    requires KeyShaped(key)
    requires |value| > 0 && !IsSpace(value[0])
    requires forall j :: 0 <= j < |value| ==> !IsBreak(value[j])
    requires after == [] || IsBreak(after[0])
    ensures FieldAt(before + FieldLine(key, value) + after, |before|, key) == Some(value)
  {
    var s := before + FieldLine(key, value) + after;
    LineAtConcat(before, key, value, after);
    if after != [] {
      assert s[|before| + |key| + |value| + 5] == after[0];
    }
    LineField(s, |before|, key, value);
  }

  /** No match starts before the first bar. */
  lemma NoFieldBeforeBar(before: string, line: string, after: string, key: string)
    requires '|' !in before
    ensures forall j :: 0 <= j < |before| ==> FieldAt(before + line + after, j, key).None?
  {
    forall j | 0 <= j < |before| ensures FieldAt(before + line + after, j, key).None? {
      assert (before + line + after)[j] == before[j];
    }
  }

  /** A field line, with no bar before it, reads back as its value: what is
      written after it, a later duplicate included, does not matter as long
      as the line ends there. */
  lemma FieldLineRoundTrip(before: string, key: string, value: string, after: string)
    requires key in InfoboxKeys && '|' !in before
    requires |value| > 0 && !IsSpace(value[0])
    requires forall j :: 0 <= j < |value| ==> !IsBreak(value[j])
    requires after == [] || IsBreak(after[0])
    ensures key in ParseInfobox(before + FieldLine(key, value) + after)
    ensures ParseInfobox(before + FieldLine(key, value) + after)[key] == Strip(value)
  {
    InfoboxKeysShaped(key);
    FieldLineFirst(before, key, value, after);
    FirstMatchParsed(before + FieldLine(key, value) + after, key, |before|);
  }

  /** A field line with no bar before it is the leftmost match. */
  lemma FieldLineFirst(before: string, key: string, value: string, after: string)
    requires KeyShaped(key) && '|' !in before
    requires |value| > 0 && !IsSpace(value[0])
    requires forall j :: 0 <= j < |value| ==> !IsBreak(value[j])
    requires after == [] || IsBreak(after[0])
    ensures var s := before + FieldLine(key, value) + after;
      && FieldAt(s, |before|, key) == Some(value)
      && forall j :: 0 <= j < |before| ==> FieldAt(s, j, key).None?
  {
    FieldLineMatches(before, key, value, after);
    NoFieldBeforeBar(before, FieldLine(key, value), after, key);
  }

  /** The parsed value of a field is its leftmost match, stripped. */
  lemma FirstMatchParsed(s: string, key: string, i: nat)
    requires key in InfoboxKeys
    requires i <= |s| && FieldAt(s, i, key).Some?
    requires forall j :: 0 <= j < i ==> FieldAt(s, j, key).None?
    ensures key in ParseInfobox(s)
    ensures ParseInfobox(s)[key] == Strip(FieldAt(s, i, key).value)
  {
    FindFieldAt(s, key, i);
  }

  /** A run free of breaks that ends at a break or the end of the text is
      what `[^\n|]*` takes. */
  lemma ValueEndAt(s: string, from: nat, to: nat)
    requires from <= to <= |s|
    requires forall j :: from <= j < to ==> !IsBreak(s[j])
    requires to == |s| || IsBreak(s[to])
    ensures ValueEnd(s, from) == to
  {
  }

  /** A field whose header matches nowhere is not parsed. */
  lemma NoHeadNotParsed(s: string, key: string)
    requires forall i :: 0 <= i <= |s| ==> HeadEnd(s, i, key).None?
    ensures key !in ParseInfobox(s)
  {
  }

  /** A longer field name is a different field: a line declaring
      `occupations` does not declare `occupation`. */
  lemma LongerNameIsOtherField(rest: string)
    requires '|' !in rest
    ensures "occupation" !in ParseInfobox("|occupations" + rest)
  {
    var s := "|occupations" + rest;
    forall i | 0 <= i <= |s| ensures HeadEnd(s, i, "occupation").None? {
      if i == 0 {
        LongerNameHead(s);
      } else if i < |s| {
        BarOnlyAtStart(rest, i);
      }
    }
    NoHeadNotParsed(s, "occupation");
  }

  /** The header for `occupation` fails at the `s` of `occupations`. */
  lemma LongerNameHead(s: string)
    requires |s| >= 12 && s[..12] == "|occupations"
    ensures HeadEnd(s, 0, "occupation").None?
  {
    assert s[1] == 'o' && s[11] == 's';
    assert SpaceRun(s, 1) == 0;
    assert SpaceRun(s, 11) == 0;
  }

  lemma BarOnlyAtStart(rest: string, i: nat)
    requires '|' !in rest && 0 < i < 12 + |rest|
    ensures ("|occupations" + rest)[i] != '|'
  {
    if i >= 12 {
      assert ("|occupations" + rest)[i] == rest[i - 12];
    }
  }

  /** The header of `|occupation=` matches at the start. */
  lemma OccupationHead(s: string)
    requires |s| >= 12 && s[..12] == "|occupation="
    ensures HeadEnd(s, 0, "occupation") == Some(12)
  {
    assert s[1] == 'o' && s[11] == '=';
    assert SpaceRun(s, 1) == 0;
    assert s[1..11] == s[..12][1..11] == "occupation";
    assert SpaceRun(s, 11) == 0;
    assert HeadSplit(s, 0, "occupation", 1, 11);
    HeadEndParts(s, 0, "occupation", 1, 11);
  }

  /** `\s*` after `=` runs over a line break: a field left empty takes the
      text of the next line when that line does not start with a bar. */
  lemma EmptyFieldTakesNextLine(value: string, after: string)
    requires |value| > 0 && !IsSpace(value[0])
    requires forall j :: 0 <= j < |value| ==> !IsBreak(value[j])
    requires after == [] || IsBreak(after[0])
    ensures "occupation" in ParseInfobox("|occupation=\n" + value + after)
    ensures ParseInfobox("|occupation=\n" + value + after)["occupation"] == Strip(value)
  {
    EmptyFieldAt(value, after);
    FirstMatchParsed("|occupation=\n" + value + after, "occupation", 0);
  }

  /** The match of the empty field at the start captures the next line. */
  lemma EmptyFieldAt(value: string, after: string)
    requires |value| > 0 && !IsSpace(value[0])
    requires forall j :: 0 <= j < |value| ==> !IsBreak(value[j])
    requires after == [] || IsBreak(after[0])
    ensures FieldAt("|occupation=\n" + value + after, 0, "occupation") == Some(value)
  {
    var s := "|occupation=\n" + value + after;
    assert s[..12] == "|occupation=";
    OccupationHead(s);
    ValueAfterBreak(s, value, after);
  }

  /** After the line break that ends `|occupation=`, the whitespace run
      stops at the value, and the value runs to the next break. */
  lemma ValueAfterBreak(s: string, value: string, after: string)
    requires |s| == 13 + |value| + |after| && s[12] == '\n'
    requires s[13..] == value + after
    requires |value| > 0 && !IsSpace(value[0])
    requires forall j :: 0 <= j < |value| ==> !IsBreak(value[j])
    requires after == [] || IsBreak(after[0])
    ensures SpaceRun(s, 12) == 1 && ValueEnd(s, 13) == 13 + |value|
    ensures s[13..13 + |value|] == value
  {
    assert s[13] == (value + after)[0] == value[0];
    assert s[12..13] == ['\n'];
    GreedyRun(s, 12, 13);
    forall j | 13 <= j < 13 + |value| ensures !IsBreak(s[j]) {
      assert s[j] == s[13..][j - 13] == value[j - 13];
    }
    if after != [] {
      assert s[13 + |value|] == s[13..][|value|] == after[0];
    }
    ValueEndAt(s, 13, 13 + |value|);
    assert s[13..13 + |value|] == s[13..][..|value|] == value;
  }

  /** `get_infobox_data`: of the pages the query returned, the infobox of the
      last one that carries a revision; an empty dictionary if none does.
      Each element is a page's wikitext, or `None` for a page without one. */
  function InfoboxFromPages(pages: seq<Option<string>>): (m: map<string, string>)
    ensures (forall i :: 0 <= i < |pages| ==> pages[i].None?) ==> m == map[]
    ensures forall k :: k in m ==> k in InfoboxKeys
    ensures forall i :: LastWithText(pages, i) ==> m == ParseInfobox(pages[i].value)
  {
    if pages == [] then map[]
    else
      var n := |pages| - 1;
      if pages[n].Some? then
        assert forall i :: LastWithText(pages, i) ==> i == n;
        ParseInfobox(pages[n].value)
      else
        var front := pages[..n];
        assert forall i :: 0 <= i < n ==> front[i] == pages[i];
        assert forall i :: LastWithText(pages, i) ==> LastWithText(front, i);
        InfoboxFromPages(front)
  }

  /** `pages[i]` is the last page that carries wikitext. */
  predicate LastWithText(pages: seq<Option<string>>, i: int) {
    0 <= i < |pages| && pages[i].Some? && forall j :: i < j < |pages| ==> pages[j].None?
  }
}
