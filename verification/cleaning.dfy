/** `DataTransformer.clean_text`: a fixed sequence of regular-expression
    substitutions followed by `strip()`. Each substitution is modelled as a
    left-to-right scanner (`Sub`) driven by a hand-written matcher
    (`MatchAt`) for its pattern. */
module Cleaning {
  import opened Text

  /** The substitution passes of `clean_text`, in the order they run. */
  datatype Pass =
    | Tags       // <[^>]+>                          -> ""
    | Spaces     // \s+                              -> " "
    | WikiLinks  // \[\[([^|\]]+\|)?([^\]]+)\]\]     -> group 2
    | Brackets   // \[([^\]]+)\]                     -> ""
    | Bold       // '''([^']+)'''                    -> group 1
    | Italic     // ''([^']+)''                      -> group 1
    | Born       // \s+\(born\s+[^)]+\)              -> ""
    | Died       // \s+\(died\s+[^)]+\)              -> ""

  /** The outcome of trying a pattern at the start of a string: nothing, or
      a match of `len` characters to be replaced by `repl`. */
  datatype Step = NoMatch | Match(len: nat, repl: string)

  /** `<[^>]+>`: a `<`, at least one character other than `>`, then `>`.
      It matches where a `<` is followed by a character other than `>` and
      some `>` comes later, and it runs to the first `>`. */
  function TagAt(s: string): (r: Step)
    ensures r.Match? <==> |s| >= 2 && s[0] == '<' && s[1] != '>' && '>' in s
    ensures r.Match? ==> 3 <= r.len <= |s| && s[0] == '<' && FirstAt(s, '>', 1, r.len - 1) && r.repl == ""
  {
    if |s| >= 2 && s[0] == '<' && s[1] != '>' then
      var k := FindChar(s, '>', 1);
      if k < |s| then Match(k + 1, "") else NoMatch
    else NoMatch
  }

  /** `\s+`: the whole run of whitespace, replaced by one space. */
  function SpacesAt(s: string): (r: Step)
    ensures r.Match? <==> |s| > 0 && IsSpace(s[0])
    ensures r.Match? ==> 1 <= r.len <= |s| && AllSpace(s[..r.len]) && r.repl == " "
    ensures r.Match? ==> r.len == |s| || !IsSpace(s[r.len])
  {
    if |s| > 0 && IsSpace(s[0]) then Match(SpaceRun(s, 0), " ") else NoMatch
  }

  /** `\[\[([^|\]]+\|)?([^\]]+)\]\]` replaced by group 2. The link runs to
      the first `]`, which must be doubled; the caption is what follows the
      first `|` when a non-empty target precedes it and a non-empty caption
      follows it, and otherwise the whole inside of the brackets. */
  function WikiLinkAt(s: string): (r: Step)
    ensures r.Match? <==> && |s| >= 2 && s[..2] == "[["
                          && exists k :: 2 < k && FirstAt(s, ']', 2, k) && k + 1 < |s| && s[k + 1] == ']'
    ensures r.Match? ==> 5 <= r.len <= |s| && s[..2] == "[[" && FirstAt(s, ']', 2, r.len - 2) && s[r.len - 1] == ']'
    ensures r.Match? ==> r.repl == LinkCaption(s, r.len - 2)
  {
    if |s| >= 2 && s[0] == '[' && s[1] == '[' then
      var k := FindChar(s, ']', 2);
      if 2 < k && k + 1 < |s| && s[k + 1] == ']' then
        assert FirstAt(s, ']', 2, k);
        assert s[..2] == "[[" by { assert s[..2] == [s[0], s[1]]; }
        Match(k + 2, LinkCaption(s, k))
      else
        FindCharFirst(s, ']', 2);
        NoMatch
    else NoMatch
  }

  /** Group 2 of the link pattern, for a link whose first `]` is at `k`:
      the text after the first `|` when a non-empty target precedes it and
      a non-empty caption follows it, and otherwise all of `s[2..k]`. */
  function LinkCaption(s: string, k: nat): (caption: string)
    requires 2 < k <= |s|
    requires forall j :: 2 <= j < k ==> s[j] != ']'
    ensures |caption| > 0 && ']' !in caption && IsInfix(caption, s[2..k])
    ensures forall m :: 2 < m < k - 1 && FirstAt(s, '|', 2, m) ==> caption == s[m + 1..k]
    ensures (s[2] == '|' || forall m :: 2 < m < k - 1 ==> s[m] != '|') ==> caption == s[2..k]
  {
    var m := FindChar(s, '|', 2);
    if 2 < m < k - 1 then
      assert InfixAt(s[m + 1..k], s[2..k], m - 1);
      s[m + 1..k]
    else
      assert InfixAt(s[2..k], s[2..k], 0);
      s[2..k]
  }

  /** `\[([^\]]+)\]`: a bracketed non-empty text, removed. It matches where
      a `[` is followed by a character other than `]` and some `]` comes
      later, and it runs to the first `]`. */
  function BracketAt(s: string): (r: Step)
    ensures r.Match? <==> |s| >= 2 && s[0] == '[' && s[1] != ']' && ']' in s
    ensures r.Match? ==> 3 <= r.len <= |s| && s[0] == '[' && FirstAt(s, ']', 1, r.len - 1) && r.repl == ""
  {
    if |s| > 0 && s[0] == '[' then
      var k := FindChar(s, ']', 1);
      if 1 < k < |s| then Match(k + 1, "") else NoMatch
    else NoMatch
  }

  /** `n` apostrophes from index `i` on. */
  predicate QuoteRun(s: string, i: nat, n: nat) {
    i + n <= |s| && forall j :: i <= j < i + n ==> s[j] == '\''
  }

  /** `q([^']+)q` where `q` is a run of `n` apostrophes, replaced by the
      text between the quotes. It matches where `n` apostrophes open the
      text, a character other than an apostrophe follows, and the first
      apostrophe after the opening run starts a closing run of `n`. */
  function QuotedAt(s: string, n: nat): (r: Step)
    requires n > 0
    ensures r.Match? <==> QuoteRun(s, 0, n) && exists k :: n < k && FirstAt(s, '\'', n, k) && QuoteRun(s, k, n)
    ensures r.Match? ==> 2 * n < r.len <= |s| && QuoteRun(s, 0, n)
    ensures r.Match? ==> FirstAt(s, '\'', n, r.len - n) && QuoteRun(s, r.len - n, n)
    ensures r.Match? ==> r.repl == s[n..r.len - n] && |r.repl| > 0 && '\'' !in r.repl
  {
    if QuoteRun(s, 0, n) then
      var k := FindChar(s, '\'', n);
      if n < k && QuoteRun(s, k, n) then
        Match(k + n, s[n..k])
      else NoMatch
    else NoMatch
  }

  /** The first `n` characters of `s` are a life note: the whitespace
      `s[..j]`, then `(` and `word`, whitespace, at least one more
      character, and the first `)` after the word. */
  predicate LifeNote(s: string, word: string, j: nat, n: nat) {
    && 0 < j && j + |word| + 4 <= n <= |s|
    && AllSpace(s[..j]) && s[j..j + |word| + 1] == "(" + word && IsSpace(s[j + |word| + 1])
    && FirstAt(s, ')', j + |word| + 1, n - 1)
  }

  /** `\s+\(W\s+[^)]+\)` for the word `W`: whitespace, `(` and the word,
      whitespace, some text, and the closing parenthesis, all removed.
      When only whitespace lies between the word and `)`, the first run
      gives its last character back to the second, so the pattern needs at
      least two characters there, the first of them whitespace. */
  function LifeNoteAt(s: string, word: string): (r: Step)
    ensures r.Match? ==> 1 <= r.len <= |s| && IsSpace(s[0]) && '(' in s && r.repl == ""
    ensures r.Match? ==> exists j :: LifeNote(s, word, j, r.len)
  {
    if |s| > 0 && IsSpace(s[0]) then
      var j := SpaceRun(s, 0);
      var open := "(" + word;
      if j + |open| < |s| && s[j..j + |open|] == open && IsSpace(s[j + |open|]) then
        assert s[j] == '(';
        var k := FindChar(s, ')', j + |open|);
        if j + |open| + 2 <= k < |s| then
          assert LifeNote(s, word, j, k + 1);
          Match(k + 1, "")
        else NoMatch
      else NoMatch
    else NoMatch
  }

  /** The pattern of pass `p`, tried at the start of `s`. */
  function MatchAt(p: Pass, s: string): (r: Step)
    ensures r.Match? ==> 1 <= r.len <= |s|
    ensures r.Match? && p == Tags ==> s[0] == '<'
    ensures r.Match? && (p == WikiLinks || p == Brackets) ==> s[0] == '['
    ensures r.Match? && (p == Bold || p == Italic) ==> s[0] == '\''
    ensures r.Match? && (p == Born || p == Died) ==> '(' in s
  {
    match p
    case Tags => TagAt(s)
    case Spaces => SpacesAt(s)
    case WikiLinks => WikiLinkAt(s)
    case Brackets => BracketAt(s)
    case Bold => QuotedAt(s, 3)
    case Italic => QuotedAt(s, 2)
    case Born => LifeNoteAt(s, "born")
    case Died => LifeNoteAt(s, "died")
  }

  /** `re.sub` for pass `p`: scan from the left; where the pattern matches,
      emit the replacement and resume after the match, otherwise copy one
      character. */
  function Sub(p: Pass, s: string): string
    decreases |s|
  {
    if |s| == 0 then ""
    else match MatchAt(p, s)
      case NoMatch => [s[0]] + Sub(p, s[1..])
      case Match(n, repl) => repl + Sub(p, s[n..])
  }

  /** A position where pass `p` leaves the text as it is. */
  predicate Inert(p: Pass, s: string) {
    match MatchAt(p, s)
    case NoMatch => true
    case Match(n, repl) => repl == s[..n]
  }

  /** One step of the scanner where nothing matches: the character is
      copied. */
  lemma SubCopies(p: Pass, s: string)
    requires |s| > 0 && MatchAt(p, s).NoMatch?
    ensures Sub(p, s) == [s[0]] + Sub(p, s[1..])
  {
  }

  /** One step of the scanner at a match: the replacement is emitted and
      the match skipped. */
  lemma SubReplaces(p: Pass, s: string)
    requires |s| > 0 && MatchAt(p, s).Match?
    ensures Sub(p, s) == MatchAt(p, s).repl + Sub(p, s[MatchAt(p, s).len..])
  {
  }

  /** A pass is the identity on a string where it is inert at every
      position. */
  lemma {:induction false} SubInert(p: Pass, s: string)
    requires forall i :: 0 <= i < |s| ==> Inert(p, s[i..])
    ensures Sub(p, s) == s
    decreases |s|
  {
    if |s| > 0 {
      assert Inert(p, s[0..]);
      assert s[0..] == s;
      match MatchAt(p, s)
      case NoMatch =>
        forall i | 0 <= i < |s[1..]| ensures Inert(p, s[1..][i..]) {
          assert s[1..][i..] == s[i + 1..];
        }
        SubInert(p, s[1..]);
        SubCopies(p, s);
        assert s == [s[0]] + s[1..];
      case Match(n, repl) =>
        forall i | 0 <= i < |s[n..]| ensures Inert(p, s[n..][i..]) {
          assert s[n..][i..] == s[i + n..];
        }
        SubInert(p, s[n..]);
        SubReplaces(p, s);
        assert s == s[..n] + s[n..];
    }
  }

  /** A prefix in which no match starts is copied unchanged. */
  lemma {:induction false} SubPrefix(p: Pass, a: string, b: string)
    requires forall i :: 0 <= i < |a| ==> MatchAt(p, (a + b)[i..]).NoMatch?
    ensures Sub(p, a + b) == a + Sub(p, b)
    decreases |a|
  {
    if |a| > 0 {
      SubPrefixStep(p, a, b);
      SubPrefix(p, a[1..], b);
      assert a == [a[0]] + a[1..];
      ConcatAssoc([a[0]], a[1..], Sub(p, b));
    } else {
      assert a + b == b && a + Sub(p, b) == Sub(p, b);
    }
  }

  /** One step of `SubPrefix`: the first character is copied, and no match
      starts in the rest of the prefix. */
  lemma SubPrefixStep(p: Pass, a: string, b: string)
    requires |a| > 0
    requires forall i :: 0 <= i < |a| ==> MatchAt(p, (a + b)[i..]).NoMatch?
    ensures Sub(p, a + b) == [a[0]] + Sub(p, a[1..] + b)
    ensures forall i :: 0 <= i < |a[1..]| ==> MatchAt(p, (a[1..] + b)[i..]).NoMatch?
  {
    assert (a + b)[0..] == a + b;
    assert (a + b)[1..] == a[1..] + b;
    forall i | 0 <= i < |a[1..]| ensures MatchAt(p, (a[1..] + b)[i..]).NoMatch? {
      assert (a[1..] + b)[i..] == (a + b)[i + 1..];
    }
    SubCopies(p, a + b);
  }

  /** When no match starts in `a` and `x` is a match at the start of the
      rest, the pass copies `a`, emits the replacement for `x` and rewrites
      on after it. */
  lemma SubAcross(p: Pass, a: string, x: string, b: string)
    requires forall i :: 0 <= i < |a| ==> MatchAt(p, (a + (x + b))[i..]).NoMatch?
    requires MatchAt(p, x + b).Match? && MatchAt(p, x + b).len == |x|
    ensures Sub(p, a + x + b) == a + MatchAt(p, x + b).repl + Sub(p, b)
  {
    SubPrefix(p, a, x + b);
    SubReplaces(p, x + b);
    assert (x + b)[|x|..] == b;
    assert a + x + b == a + (x + b);
  }

  /** The passes of `clean_text`, in the order they run. */
  const CleanPasses: seq<Pass> := [Tags, Spaces, WikiLinks, Brackets, Bold, Italic, Born, Died]

  /** Runs the passes `ps` one after another over `s`. */
  function RunPasses(ps: seq<Pass>, s: string): string
    decreases |ps|
  {
    if ps == [] then s else RunPasses(ps[1..], Sub(ps[0], s))
  }

  /** Passes that each leave `s` alone leave it alone together. */
  lemma {:induction false} RunPassesUnchanged(ps: seq<Pass>, s: string)
    requires forall i :: 0 <= i < |ps| ==> Sub(ps[i], s) == s
    ensures RunPasses(ps, s) == s
    decreases |ps|
  {
    if ps != [] {
      assert Sub(ps[0], s) == s;
      forall i | 0 <= i < |ps[1..]| ensures Sub(ps[1..][i], s) == s {
        assert ps[1..][i] == ps[i + 1];
      }
      RunPassesUnchanged(ps[1..], s);
    }
  }

  /** `clean_text(text)`: empty text stays empty; otherwise the passes run
      in order and the ends are stripped. */
  function CleanText(text: string): (r: string)
    ensures text == "" ==> r == ""
    ensures |r| > 0 ==> !IsSpace(r[0]) && !IsSpace(r[|r| - 1])
  {
    if text == "" then "" else Strip(RunPasses(CleanPasses, text))
  }

  /** No character that starts a tag, a bracket, a quote or a life note. */
  predicate NoMarkup(s: string) {
    '<' !in s && '[' !in s && '\'' !in s && '(' !in s
  }

  /** Every whitespace character is a single space followed by a
      non-whitespace character. */
  predicate SingleSpaced(s: string) {
    forall i :: 0 <= i < |s| && IsSpace(s[i]) ==> s[i] == ' ' && i + 1 < |s| && !IsSpace(s[i + 1])
  }

  /** Single-spaced and not starting with whitespace: no whitespace run
      and no whitespace at either end. */
  predicate Tidy(s: string) {
    SingleSpaced(s) && (|s| > 0 ==> !IsSpace(s[0]))
  }

  lemma SingleSpacedConcat(a: string, b: string)
    requires SingleSpaced(a) && SingleSpaced(b)
    ensures SingleSpaced(a + b)
  {
    forall i | 0 <= i < |a + b| && IsSpace((a + b)[i])
      ensures (a + b)[i] == ' ' && i + 1 < |a + b| && !IsSpace((a + b)[i + 1])
    {
      if i < |a| {
        assert a[i] == (a + b)[i];
      } else {
        assert b[i - |a|] == (a + b)[i];
      }
    }
  }

  /** On a single-spaced string the whitespace pass is the identity. */
  lemma SpacesInert(s: string)
    requires SingleSpaced(s)
    ensures Sub(Spaces, s) == s
  {
    forall i | 0 <= i < |s| ensures Inert(Spaces, s[i..]) {
      if IsSpace(s[i]) {
        assert s[i..][1] == s[i + 1];
        assert SpaceRun(s[i..], 0) == 1;
        assert s[i..][..1] == " ";
      }
    }
    SubInert(Spaces, s);
  }

  /** A pass whose pattern needs a character `s` lacks is the identity. */
  lemma MarkupPassInert(p: Pass, s: string)
    requires p != Spaces
    requires p == Tags ==> '<' !in s
    requires (p == WikiLinks || p == Brackets) ==> '[' !in s
    requires (p == Bold || p == Italic) ==> '\'' !in s
    requires (p == Born || p == Died) ==> '(' !in s
    ensures Sub(p, s) == s
  {
    forall i | 0 <= i < |s| ensures MatchAt(p, s[i..]).NoMatch? {
      assert s[i..][0] == s[i];
      assert forall c :: c in s[i..] ==> c in s;
    }
    SubInert(p, s);
  }

  /** Text without markup, whitespace runs or edge whitespace comes out of
      `clean_text` unchanged. */
  lemma CleanTextUnchanged(s: string)
    requires NoMarkup(s) && Tidy(s)
    ensures CleanText(s) == s
  {
    if s != "" {
      forall i | 0 <= i < |CleanPasses| ensures Sub(CleanPasses[i], s) == s {
        if CleanPasses[i] == Spaces {
          SpacesInert(s);
        } else {
          MarkupPassInert(CleanPasses[i], s);
        }
      }
      RunPassesUnchanged(CleanPasses, s);
      StripUnchanged(s);
    }
  }

  /** `[[target|caption]]` as a string. */
  function Link(target: string, caption: string): string {
    "[[" + target + "|" + caption + "]]"
  }

  /** The conditions under which a link is rewritten to its caption alone:
      a non-empty target with no `|` or `]`, a non-empty caption with no `]`. */
  predicate PipedLink(target: string, caption: string) {
    target != "" && caption != "" && '|' !in target && ']' !in target && ']' !in caption
  }

  /** The link pattern matches a piped link exactly, with the caption as its
      replacement. */
  lemma WikiLinkAtLink(target: string, caption: string, rest: string)
    requires PipedLink(target, caption)
    ensures MatchAt(WikiLinks, Link(target, caption) + rest) == Match(|Link(target, caption)|, caption)
  {
    var s := Link(target, caption) + rest;
    var k := 2 + |target| + 1 + |caption|;
    assert s[..2] == "[[";
    assert s[2..2 + |target|] == target;
    assert s[2 + |target|] == '|';
    assert s[2 + |target| + 1..k] == caption;
    assert s[k] == ']' && s[k + 1] == ']';
    forall j | 2 <= j < k ensures s[j] != ']' {
      if j < 2 + |target| {
        assert s[j] == target[j - 2];
      } else if j > 2 + |target| {
        assert s[j] == caption[j - 3 - |target|];
      }
    }
    assert FindChar(s, ']', 2) == k;
    forall j | 2 <= j < 2 + |target| ensures s[j] != '|' {
      assert s[j] == target[j - 2];
    }
    assert FindChar(s, '|', 2) == 2 + |target|;
  }

  /** Inside running text, the link pass replaces a piped link by its caption
      when no `[` precedes it. */
  lemma WikiLinkInText(a: string, target: string, caption: string, b: string)
    requires '[' !in a
    requires PipedLink(target, caption)
    ensures Sub(WikiLinks, a + Link(target, caption) + b) == a + caption + Sub(WikiLinks, b)
  {
    var L := Link(target, caption);
    forall i | 0 <= i < |a| ensures MatchAt(WikiLinks, (a + (L + b))[i..]).NoMatch? {
      assert (a + (L + b))[i..][0] == a[i];
    }
    SubPrefix(WikiLinks, a, L + b);
    WikiLinkAtLink(target, caption, b);
    assert (L + b)[|L|..] == b;
    assert a + L + b == a + (L + b);
  }

  /** The life-note pattern matches exactly the life notes at the start of
      `s`, and runs to the first `)` after the word. */
  lemma LifeNoteAtFinds(s: string, word: string, j: nat, n: nat)
    requires LifeNote(s, word, j, n)
    ensures LifeNoteAt(s, word) == Match(n, "")
  {
    assert s[j] == '(' by { assert s[j..j + |word| + 1][0] == s[j]; }
    forall i | 0 <= i < j ensures IsSpace(s[i]) {
      assert s[..j][i] == s[i];
    }
    SpaceRunTo(s, 0, j);
    FindCharFirst(s, ')', j + |word| + 1);
  }

  /** `<t>` as a string. */
  function Tag(t: string): string {
    "<" + t + ">"
  }

  /** The tag pattern matches a tag with a non-empty body exactly. */
  lemma TagAtTag(t: string, rest: string)
    requires t != "" && '>' !in t
    ensures MatchAt(Tags, Tag(t) + rest) == Match(|Tag(t)|, "")
  {
    var s := Tag(t) + rest;
    assert s[0] == '<' && s[1] == t[0];
    forall j | 1 <= j < |t| + 1 ensures s[j] != '>' {
      assert s[j] == t[j - 1];
    }
    assert FirstAt(s, '>', 1, |t| + 1);
    FindCharFirst(s, '>', 1);
  }

  /** Inside running text, the tag pass deletes a tag when no `<` precedes
      it. */
  lemma TagInText(a: string, t: string, b: string)
    requires '<' !in a && t != "" && '>' !in t
    ensures Sub(Tags, a + Tag(t) + b) == a + Sub(Tags, b)
  {
    var T := Tag(t);
    forall i | 0 <= i < |a| ensures MatchAt(Tags, (a + (T + b))[i..]).NoMatch? {
      assert (a + (T + b))[i..][0] == a[i];
    }
    TagAtTag(t, b);
    SubAcross(Tags, a, T, b);
  }

  /** `[t]` as a string. */
  function Bracketed(t: string): string {
    "[" + t + "]"
  }

  /** The bracket pattern matches a bracketed non-empty text exactly. */
  lemma BracketAtBracketed(t: string, rest: string)
    requires t != "" && ']' !in t
    ensures MatchAt(Brackets, Bracketed(t) + rest) == Match(|Bracketed(t)|, "")
  {
    var s := Bracketed(t) + rest;
    assert s[0] == '[' && s[1] == t[0];
    forall j | 1 <= j < |t| + 1 ensures s[j] != ']' {
      assert s[j] == t[j - 1];
    }
    assert FirstAt(s, ']', 1, |t| + 1);
    FindCharFirst(s, ']', 1);
  }

  /** Inside running text, the bracket pass deletes a bracketed text when
      no `[` precedes it. */
  lemma BracketInText(a: string, t: string, b: string)
    requires '[' !in a && t != "" && ']' !in t
    ensures Sub(Brackets, a + Bracketed(t) + b) == a + Sub(Brackets, b)
  {
    var B := Bracketed(t);
    forall i | 0 <= i < |a| ensures MatchAt(Brackets, (a + (B + b))[i..]).NoMatch? {
      assert (a + (B + b))[i..][0] == a[i];
    }
    BracketAtBracketed(t, b);
    SubAcross(Brackets, a, B, b);
  }

  /** The quote run that delimits the bold (`'''`) or italic (`''`) pass. */
  function QuoteMark(p: Pass): (q: string)
    requires p == Bold || p == Italic
    ensures |q| == (if p == Bold then 3 else 2) && forall j :: 0 <= j < |q| ==> q[j] == '\''
  {
    if p == Bold then "\'\'\'" else "\'\'"
  }

  /** The bold or italic pattern matches quoted quote-free text exactly,
      and keeps the text. */
  lemma QuotedAtQuoted(p: Pass, t: string, rest: string)
    requires p == Bold || p == Italic
    requires t != "" && '\'' !in t
    ensures var q := QuoteMark(p);
      MatchAt(p, q + t + q + rest) == Match(|q + t + q|, t)
  {
    var q := QuoteMark(p);
    var n := |q|;
    var s := q + t + q + rest;
    assert QuoteRun(s, 0, n) by {
      forall j | 0 <= j < n ensures s[j] == '\'' { assert s[j] == q[j]; }
    }
    forall j | n <= j < n + |t| ensures s[j] != '\'' {
      assert s[j] == t[j - n];
    }
    assert QuoteRun(s, n + |t|, n) by {
      forall j | n + |t| <= j < n + |t| + n ensures s[j] == '\'' { assert s[j] == q[j - n - |t|]; }
    }
    assert FirstAt(s, '\'', n, n + |t|);
    FindCharFirst(s, '\'', n);
    assert s[n..n + |t|] == t;
  }

  /** Inside running text without apostrophes, the bold or italic pass
      replaces quoted text by the text itself. */
  lemma QuotedInText(p: Pass, a: string, t: string, b: string)
    requires p == Bold || p == Italic
    requires '\'' !in a && t != "" && '\'' !in t
    ensures var q := QuoteMark(p);
      Sub(p, a + q + t + q + b) == a + t + Sub(p, b)
  {
    var q := QuoteMark(p);
    var Q := q + t + q;
    forall i | 0 <= i < |a| ensures MatchAt(p, (a + (Q + b))[i..]).NoMatch? {
      assert (a + (Q + b))[i..][0] == a[i];
    }
    QuotedAtQuoted(p, t, b);
    SubAcross(p, a, Q, b);
    ConcatAssoc(a, q + t, q);
    ConcatAssoc(a, q, t);
  }

  /** The word of the born (`born`) or died (`died`) pass. */
  function LifeWord(p: Pass): string
    requires p == Born || p == Died
  {
    if p == Born then "born" else "died"
  }

  /** ` (word t)` as a string. */
  function Note(p: Pass, t: string): string
    requires p == Born || p == Died
  {
    " (" + LifeWord(p) + " " + t + ")"
  }

  /** The life-note pattern matches a life note exactly. */
  lemma LifeNoteAtNote(p: Pass, t: string, rest: string)
    requires p == Born || p == Died
    requires t != "" && ')' !in t
    ensures MatchAt(p, Note(p, t) + rest) == Match(|Note(p, t)|, "")
  {
    var w := LifeWord(p);
    var s := Note(p, t) + rest;
    NoteLayout(w, t, rest);
    assert LifeNote(s, w, 1, |Note(p, t)|);
    LifeNoteAtFinds(s, w, 1, |Note(p, t)|);
  }

  /** The pieces of ` (w t)` followed by `rest`, where they lie. */
  lemma NoteLayout(w: string, t: string, rest: string)
    requires ')' !in t
    ensures var s := " (" + w + " " + t + ")" + rest;
      var n := |w| + |t| + 4;
      && |s| == n + |rest| && s[..1] == " " && s[1..|w| + 2] == "(" + w && s[|w| + 2] == ' '
      && s[n - 1] == ')' && forall j :: |w| + 2 <= j < n - 1 ==> s[j] != ')'
  {
    var s := " (" + w + " " + t + ")" + rest;
    var n := |w| + |t| + 4;
    assert s[1..|w| + 2] == "(" + w by {
      forall j | 0 <= j < |w| + 1 ensures s[1 + j] == ("(" + w)[j] {
        if j > 0 { assert s[1 + j] == w[j - 1]; }
      }
    }
    forall j | |w| + 2 <= j < n - 1 ensures s[j] != ')' {
      if j > |w| + 2 { assert s[j] == t[j - |w| - 3]; }
    }
  }

  /** No life note starts inside text without `(` that does not end in
      whitespace. */
  lemma NoLifeNoteBefore(p: Pass, a: string, c: string)
    requires p == Born || p == Died
    requires '(' !in a && (|a| > 0 ==> !IsSpace(a[|a| - 1]))
    ensures forall i :: 0 <= i < |a| ==> MatchAt(p, (a + c)[i..]).NoMatch?
  {
    var w := LifeWord(p);
    forall i | 0 <= i < |a| ensures MatchAt(p, (a + c)[i..]).NoMatch? {
      var x := (a + c)[i..];
      forall j: nat | 0 < j && j + |w| + 1 <= |x| ensures x[j..j + |w| + 1] != "(" + w || !AllSpace(x[..j]) {
        NoParenAfterSpaces(a, c, i, w, j);
      }
    }
  }

  /** From inside such text, whitespace never runs up to a `(`. */
  lemma NoParenAfterSpaces(a: string, c: string, i: nat, w: string, j: nat)
    requires '(' !in a && (|a| > 0 ==> !IsSpace(a[|a| - 1])) && i < |a|
    requires 0 < j && j + |w| + 1 <= |(a + c)[i..]|
    ensures var x := (a + c)[i..]; x[j..j + |w| + 1] != "(" + w || !AllSpace(x[..j])
  {
    var x := (a + c)[i..];
    if i + j < |a| {
      assert x[j..j + |w| + 1][0] == a[i + j];
    } else {
      assert x[..j][|a| - 1 - i] == a[|a| - 1];
    }
  }

  /** Inside running text, the born or died pass deletes a life note when
      no `(` precedes it and the text before it does not end in
      whitespace. */
  lemma LifeNoteInText(p: Pass, a: string, t: string, b: string)
    requires p == Born || p == Died
    requires '(' !in a && (|a| > 0 ==> !IsSpace(a[|a| - 1]))
    requires t != "" && ')' !in t
    ensures Sub(p, a + Note(p, t) + b) == a + Sub(p, b)
  {
    var N := Note(p, t);
    NoLifeNoteBefore(p, a, N + b);
    LifeNoteAtNote(p, t, b);
    SubAcross(p, a, N, b);
    assert a + MatchAt(p, N + b).repl == a;
  }

  lemma LinkSingleSpaced(target: string, caption: string)
    requires SingleSpaced(target) && SingleSpaced(caption)
    ensures SingleSpaced(Link(target, caption))
  {
    SingleSpacedConcat("[[", target);
    SingleSpacedConcat("[[" + target, "|");
    SingleSpacedConcat("[[" + target + "|", caption);
    SingleSpacedConcat("[[" + target + "|" + caption, "]]");
  }

  /** A link without tags or doubled whitespace passes the first two
      passes unchanged. */
  lemma LinkPassesTagsAndSpaces(target: string, caption: string)
    requires '<' !in target && '<' !in caption
    requires SingleSpaced(target) && SingleSpaced(caption)
    ensures Sub(Spaces, Sub(Tags, Link(target, caption))) == Link(target, caption)
  {
    var L := Link(target, caption);
    assert '<' !in L;
    MarkupPassInert(Tags, L);
    LinkSingleSpaced(target, caption);
    SpacesInert(L);
  }

  /** The first three passes turn a lone piped link into its caption. */
  lemma LinkFirstPasses(target: string, caption: string)
    requires PipedLink(target, caption)
    requires '<' !in target && '<' !in caption
    requires SingleSpaced(target) && SingleSpaced(caption)
    ensures Sub(WikiLinks, Sub(Spaces, Sub(Tags, Link(target, caption)))) == caption
  {
    LinkPassesTagsAndSpaces(target, caption);
    LoneLinkCaption(target, caption);
  }

  /** The link pass turns a lone piped link into its caption. */
  lemma LoneLinkCaption(target: string, caption: string)
    requires PipedLink(target, caption)
    ensures Sub(WikiLinks, Link(target, caption)) == caption
  {
    var L := Link(target, caption);
    WikiLinkInText("", target, caption, "");
    assert "" + L + "" == L;
    assert Sub(WikiLinks, "") == "";
    assert "" + caption + "" == caption;
  }

  /** The last five passes leave text without markup alone. */
  lemma LastPassesUnchanged(s: string)
    requires NoMarkup(s)
    ensures RunPasses(CleanPasses[3..], s) == s
  {
    var ps := CleanPasses[3..];
    assert ps == [Brackets, Bold, Italic, Born, Died];
    MarkupPassInert(Brackets, s);
    MarkupPassInert(Bold, s);
    MarkupPassInert(Italic, s);
    MarkupPassInert(Born, s);
    MarkupPassInert(Died, s);
    RunPassesUnchanged(ps, s);
  }

  /** A lone piped link is cleaned to its caption, provided the caption is
      itself clean text. */
  lemma CleanTextLink(target: string, caption: string)
    requires PipedLink(target, caption)
    requires '<' !in target && SingleSpaced(target)
    requires NoMarkup(caption) && Tidy(caption)
    ensures CleanText(Link(target, caption)) == caption
  {
    var L := Link(target, caption);
    LinkFirstPasses(target, caption);
    assert CleanPasses[0] == Tags && CleanPasses[1..][0] == Spaces && CleanPasses[2..][0] == WikiLinks;
    assert CleanPasses[1..][1..] == CleanPasses[2..] && CleanPasses[2..][1..] == CleanPasses[3..];
    assert RunPasses(CleanPasses, L) == RunPasses(CleanPasses[3..], caption);
    LastPassesUnchanged(caption);
    StripUnchanged(caption);
  }
}
