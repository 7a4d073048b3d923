/** `preprocess_text` of processors/md2audio.py: the clean-up applied to a
    section body before it is cut into sentences. Each regular-expression
    substitution is written as an explicit left-to-right scanner that tries a
    match at each position and, where the pattern has a lazy `.*?`, takes the
    shortest body for which the rest of the pattern succeeds, exactly as
    Python's backtracking engine does. `.` never matches a newline here. */
module Normalize {
  import opened Text

  /** Where a Markdown link `[label](url)` match ends: `close` is the index of
      the `]` that ends the label, `end` is one past the `)`. */
  datatype LinkMatch = LinkMatch(close: nat, end: nat)

  /** The text of `\[(.*?)\][ ]*\(.*?\)` lined up at the start of `s`, with the
      label's `]` at `j`, the `(` at `q` and the match ending at `e`. */
  predicate LinkShape(s: string, j: nat, q: nat, e: nat)
  {
    && 0 < j < q && q + 1 < e <= |s|
    && s[0] == '[' && s[j] == ']' && s[q] == '(' && s[e - 1] == ')'
    && (forall t | 0 < t < j :: s[t] != '\n')
    && (forall t | j < t < q :: s[t] == ' ')
    && (forall t | q < t < e - 1 :: s[t] != ')' && s[t] != '\n')
  }

  /** `.*?\)` from `j`: the first `)` at or after `j`, unless a newline comes first. */
  function CloseParen(s: string, j: nat): (r: Option<nat>)
    requires j <= |s|
    ensures r.Some? ==> j <= r.value < |s| && s[r.value] == ')'
    ensures r.Some? ==> forall t | j <= t < r.value :: s[t] != ')' && s[t] != '\n'
    ensures r.None? ==> forall k | j <= k < |s| && s[k] == ')' :: exists t | j <= t < k :: s[t] == '\n'
    decreases |s| - j
  {
    if j == |s| then None
    else if s[j] == ')' then Some(j)
    else if s[j] == '\n' then None
    else CloseParen(s, j + 1)
  }

  /** The lazy label `(.*?)\]` tried with its `]` at `j`, then at each later `]`
      until the rest of the link pattern succeeds or a newline ends the line. */
  function LinkFrom(s: string, j: nat): (r: Option<LinkMatch>)
    requires 0 < j <= |s| && s[0] == '['
    requires forall t | 0 < t < j :: s[t] != '\n'
    ensures r.Some? ==> j <= r.value.close && exists q :: LinkShape(s, r.value.close, q, r.value.end)
    ensures r.Some? ==> forall j', q', e' :: j <= j' && LinkShape(s, j', q', e') ==> r.value.close < j' || (r.value.close == j' && r.value.end == e')
    ensures r.None? ==> forall j', q', e' :: j <= j' ==> !LinkShape(s, j', q', e')
    decreases |s| - j
  {
    if j == |s| || s[j] == '\n' then
      NoShapeFrom(s, j);
      None
    else match CloseAt(s, j)
      case Some(e) => Some(LinkMatch(j, e))
      case None => LinkFrom(s, j + 1)
  }

  /** The rest of the link pattern, `\][ ]*\(.*?\)`, tried with the label's
      `]` at `j`: where the match ends, if it succeeds. */
  function CloseAt(s: string, j: nat): (r: Option<nat>)
    requires 0 < j < |s| && s[0] == '['
    requires forall t | 0 < t < j :: s[t] != '\n'
    ensures r.Some? ==> exists q :: LinkShape(s, j, q, r.value)
    ensures r.Some? ==> forall q', e' :: LinkShape(s, j, q', e') ==> e' == r.value
    ensures r.None? ==> forall q', e' :: !LinkShape(s, j, q', e')
  {
    if s[j] == ']' then
      var q := RunEnd(s, j + 1, ' ');
      if q < |s| && s[q] == '(' then
        match CloseParen(s, q + 1)
        case Some(k) =>
          ShapeAt(s, j, q, k);
          Some(k + 1)
        case None =>
          NoShapeAt(s, j);
          None
      else
        NoShapeAt(s, j);
        None
    else
      NoShapeAt(s, j);
      None
  }

  /** No link can close its label at or after the end of the line. */
  lemma NoShapeFrom(s: string, j: nat)
    requires j == |s| || (j < |s| && s[j] == '\n')
    ensures forall j', q', e' :: j <= j' ==> !LinkShape(s, j', q', e')
  {
    forall j': nat, q': nat, e': nat | j <= j' && LinkShape(s, j', q', e') ensures false {
    }
  }

  /** The label cannot close at `j` when no `(...)` follows the spaces there. */
  lemma NoShapeAt(s: string, j: nat)
    requires j < |s|
    requires s[j] != ']' || (var q := RunEnd(s, j + 1, ' ');
      !(q < |s| && s[q] == '(') || CloseParen(s, q + 1).None?)
    ensures forall q', e' :: !LinkShape(s, j, q', e')
  {
    forall q': nat, e': nat | LinkShape(s, j, q', e') ensures false {
    }
  }

  /** With `(` after the spaces and its `)` at `k`, the label closing at `j`
      gives exactly one match, which ends after `k`. */
  lemma ShapeAt(s: string, j: nat, q: nat, k: nat)
    requires 0 < j < |s| && s[0] == '[' && s[j] == ']'
    requires forall t | 0 < t < j :: s[t] != '\n'
    requires q == RunEnd(s, j + 1, ' ') && q < |s| && s[q] == '('
    requires CloseParen(s, q + 1) == Some(k)
    ensures LinkShape(s, j, q, k + 1)
    ensures forall q', e' :: LinkShape(s, j, q', e') ==> e' == k + 1
  {
    forall q': nat, e': nat | LinkShape(s, j, q', e') ensures e' == k + 1 {
    }
  }

  /** The link pattern tried at the start of `s`. */
  function MatchLink(s: string): (r: Option<LinkMatch>)
    ensures r.Some? ==> exists q :: LinkShape(s, r.value.close, q, r.value.end)
    ensures r.Some? ==> forall j', q', e' :: LinkShape(s, j', q', e') ==> r.value.close < j' || (r.value.close == j' && r.value.end == e')
    ensures r.None? ==> forall j', q', e' :: !LinkShape(s, j', q', e')
  {
    if s != [] && s[0] == '[' then LinkFrom(s, 1) else None
  }

  /** `re.sub(r'\[(.*?)\][ ]*\(.*?\)', r'\1', s)`: every link becomes its label. */
  function SubLinks(s: string): string
    decreases |s|
  {
    if s == [] then []
    else match MatchLink(s)
      case Some(m) => s[1..m.close] + SubLinks(s[m.end..])
      case None => [s[0]] + SubLinks(s[1..])
  }

  /** The two image forms `preprocess_text` deletes: `![[file]]` and `![alt](url)`. */
  datatype Embed = WikiImage | MarkdownImage

  /** `\]\]` tried at `j` and after each further non-newline character. */
  function DoubleClose(s: string, j: nat): (r: Option<nat>)
    requires j <= |s|
    ensures r.Some? ==> j + 2 <= r.value <= |s| && s[r.value - 2] == ']' && s[r.value - 1] == ']'
    ensures r.Some? ==> forall t | j <= t < r.value - 2 :: s[t] != '\n' && !(s[t] == ']' && s[t + 1] == ']')
    decreases |s| - j
  {
    if j + 1 >= |s| then None
    else if s[j] == ']' && s[j + 1] == ']' then Some(j + 2)
    else if s[j] == '\n' then None
    else DoubleClose(s, j + 1)
  }

  /** Where a match of the embed pattern at the start of `s` ends. */
  function EmbedEnd(s: string, kind: Embed): (r: Option<nat>)
    ensures r.Some? ==> 0 < r.value <= |s| && s[0] == '!'
  {
    match kind
    case WikiImage =>
      if |s| >= 3 && s[..3] == "![[" then DoubleClose(s, 3) else None
    case MarkdownImage =>
      if s != [] && s[0] == '!' then
        match MatchLink(s[1..])
        case Some(m) => Some(m.end + 1)
        case None => None
      else None
  }

  /** `re.sub(pattern, '', s)` for one of the two image patterns. */
  function DeleteEmbeds(s: string, kind: Embed): string
    decreases |s|
  {
    if s == [] then []
    else match EmbedEnd(s, kind)
      case Some(e) => DeleteEmbeds(s[e..], kind)
      case None => [s[0]] + DeleteEmbeds(s[1..], kind)
  }

  /** The period at `i` is one that `([.])(?=\s|$)` matches: it is last or
      followed by whitespace. */
  predicate StopAt(s: string, i: nat)
    requires i < |s|
  {
    s[i] == '.' && (i + 1 == |s| || IsSpace(s[i + 1]))
  }

  /** `re.sub(r'([.])(?=\s|$)', '。', s)`: each such period becomes the
      ideographic full stop; nothing else changes. */
  function FullStops(s: string): (r: string)
    ensures |r| == |s|
    ensures forall i :: 0 <= i < |s| ==> r[i] == (if StopAt(s, i) then '。' else s[i])
  {
    if s == [] then []
    else
      var r := [if StopAt(s, 0) then '。' else s[0]] + FullStops(s[1..]);
      assert forall i | 1 <= i < |s| :: StopAt(s, i) == StopAt(s[1..], i - 1);
      r
  }

  /** `preprocess_text(text)`, step by step in the source's order. */
  function Preprocess(text: string): string
  {
    var linked := SubLinks(text);
    var noWiki := DeleteEmbeds(linked, WikiImage);
    var noImages := DeleteEmbeds(noWiki, MarkdownImage);
    var noHyphens := ReplaceChar(noImages, '-', ' ');
    var quoted := ReplaceChar(ReplaceChar(noHyphens, '"', '“'), '"', '”');
    var stopped := FullStops(quoted);
    Strip(CollapseSpace(stopped))
  }

  // ---------------------------------------------------------------------
  // What the normalised text looks like

  /** Whitespace survives only as single ASCII spaces. */
  predicate SingleSpaced(s: string)
  {
    && (forall i | 0 <= i < |s| :: IsSpace(s[i]) ==> s[i] == ' ')
    && (forall i | 0 <= i < |s| - 1 :: !(IsSpace(s[i]) && IsSpace(s[i + 1])))
  }

  /** No period is left that the full-stop rule would still rewrite. */
  predicate NoLooseStop(s: string)
  {
    forall i | 0 <= i < |s| :: !StopAt(s, i)
  }

  lemma StopAtSuffix(s: string, k: nat, i: nat)
    requires k + i < |s|
    ensures StopAt(s[k..], i) == StopAt(s, k + i)
  {
  }

  lemma NoLooseStopSuffix(s: string, k: nat)
    requires NoLooseStop(s) && k <= |s|
    ensures NoLooseStop(s[k..])
  {
    forall i | 0 <= i < |s| - k ensures !StopAt(s[k..], i) {
      StopAtSuffix(s, k, i);
    }
  }

  /** A character in front keeps a text free of loose periods unless it is
      itself a period followed by whitespace or nothing. */
  lemma NoLooseStopCons(x: char, c: string)
    requires NoLooseStop(c)
    requires x == '.' ==> c != [] && !IsSpace(c[0])
    ensures NoLooseStop([x] + c)
  {
    var r := [x] + c;
    forall i | 0 <= i < |r| ensures !StopAt(r, i) {
      if i > 0 {
        StopAtSuffix(r, 1, i - 1);
        assert r[1..] == c;
      }
    }
  }

  lemma {:induction false} CollapseKeepsNoLooseStop(s: string)
    requires NoLooseStop(s)
    ensures NoLooseStop(CollapseSpace(s))
    decreases |s|, 1
  {
    if s != [] {
      if IsSpace(s[0]) {
        CollapseRunKeepsNoLooseStop(s);
      } else {
        CollapseCharKeepsNoLooseStop(s);
      }
    }
  }

  lemma {:induction false} CollapseRunKeepsNoLooseStop(s: string)
    requires NoLooseStop(s) && s != [] && IsSpace(s[0])
    ensures NoLooseStop(CollapseSpace(s))
    decreases |s|, 0
  {
    var l := LStrip(s[1..]);
    assert l == s[|s| - |l|..] by {
      assert s[1..][|s| - 1 - |l|..] == s[|s| - |l|..];
    }
    NoLooseStopSuffix(s, |s| - |l|);
    CollapseKeepsNoLooseStop(l);
    NoLooseStopCons(' ', CollapseSpace(l));
  }

  lemma {:induction false} CollapseCharKeepsNoLooseStop(s: string)
    requires NoLooseStop(s) && s != [] && !IsSpace(s[0])
    ensures NoLooseStop(CollapseSpace(s))
    decreases |s|, 0
  {
    NoLooseStopSuffix(s, 1);
    CollapseKeepsNoLooseStop(s[1..]);
    assert s[0] == '.' ==> |s| > 1 && !IsSpace(s[1]) by {
      assert !StopAt(s, 0);
    }
    NoLooseStopCons(s[0], CollapseSpace(s[1..]));
  }

  /** What `Strip` returns is `s` read from `LeadingSpace(s)`. */
  lemma StripKeepsSingleSpaced(s: string)
    requires SingleSpaced(s)
    ensures SingleSpaced(Strip(s))
  {
    var r := Strip(s);
    forall i | 0 <= i < |r| ensures IsSpace(r[i]) ==> r[i] == ' ' {
      StripAt(s, i);
    }
    forall i | 0 <= i < |r| - 1 ensures !(IsSpace(r[i]) && IsSpace(r[i + 1])) {
      StripAt(s, i);
      StripAt(s, i + 1);
    }
  }

  lemma StripKeepsNoLooseStop(s: string)
    requires NoLooseStop(s)
    ensures NoLooseStop(Strip(s))
  {
    var r := Strip(s);
    var n := LeadingSpace(s);
    forall i | 0 <= i < |r| ensures !StopAt(r, i) {
      StripAt(s, i);
      if r[i] == '.' {
        assert !StopAt(s, n + i);
        if i + 1 < |r| {
          StripAt(s, i + 1);
        }
      }
    }
  }

  /** The whole shape promised by the last three steps of `preprocess_text`:
      stripped, single ASCII spaces only, no hyphen, no straight double quote,
      and no period left at the end or before whitespace. */
  lemma PreprocessShape(text: string)
    ensures var r := Preprocess(text);
      && IsStripped(r) && SingleSpaced(r)
      && '-' !in r && '"' !in r
      && NoLooseStop(r)
  {
    var linked := SubLinks(text);
    var noWiki := DeleteEmbeds(linked, WikiImage);
    var noImages := DeleteEmbeds(noWiki, MarkdownImage);
    var noHyphens := ReplaceChar(noImages, '-', ' ');
    var quoted := ReplaceChar(ReplaceChar(noHyphens, '"', '“'), '"', '”');
    var stopped := FullStops(quoted);
    assert '-' !in quoted && '"' !in quoted;
    assert '-' !in stopped && '"' !in stopped;
    forall i | 0 <= i < |stopped| ensures !StopAt(stopped, i) {
      if stopped[i] == '.' {
        assert !StopAt(quoted, i);
        assert stopped[i + 1] == quoted[i + 1] || stopped[i + 1] == '。';
      }
    }
    CollapseKeepsNoLooseStop(stopped);
    var collapsed := CollapseSpace(stopped);
    CollapseSpaceFrom(stopped, '-');
    CollapseSpaceFrom(stopped, '"');
    StripKeepsSingleSpaced(collapsed);
    StripKeepsNoLooseStop(collapsed);
    StripKeepsAbsent(collapsed, '-');
    StripKeepsAbsent(collapsed, '"');
  }

  // ---------------------------------------------------------------------
  // Text that the normalisation leaves alone

  /** No `![` anywhere: neither image pattern can start. */
  predicate NoEmbedStart(s: string)
  {
    forall i | 0 <= i < |s| - 1 :: !(s[i] == '!' && s[i + 1] == '[')
  }

  lemma {:induction false} SubLinksPlain(s: string)
    requires '[' !in s
    ensures SubLinks(s) == s
    decreases |s|
  {
    if s != [] {
      SubLinksPlain(s[1..]);
    }
  }

  lemma {:induction false} DeleteEmbedsPlain(s: string, kind: Embed)
    requires NoEmbedStart(s)
    ensures DeleteEmbeds(s, kind) == s
    decreases |s|
  {
    if s != [] {
      if |s| >= 2 {
        assert !(s[0] == '!' && s[1] == '[');
        assert s[1..][0] == s[1];
      }
      assert EmbedEnd(s, kind).None?;
      DeleteEmbedsPlain(s[1..], kind);
    }
  }

  lemma {:induction false} CollapsePlain(s: string)
    requires SingleSpaced(s) && IsStripped(s)
    ensures CollapseSpace(s) == s
    decreases |s|
  {
    if s != [] {
      var t := s[1..];
      assert s == [s[0]] + t;
      SingleSpacedTail(s);
      if t != [] && IsSpace(t[0]) {
        var u := t[1..];
        SpaceThenWord(s);
        SingleSpacedTail(t);
        LStripWord(u);
        CollapsePlain(u);
        CollapseSpaceStep(t);
        assert t == [' '] + u;
      } else {
        CollapsePlain(t);
      }
      CollapseWordStep(s);
    }
  }

  lemma CollapseWordStep(s: string)
    requires s != [] && !IsSpace(s[0])
    ensures CollapseSpace(s) == [s[0]] + CollapseSpace(s[1..])
  {
  }

  lemma CollapseSpaceStep(s: string)
    requires s != [] && IsSpace(s[0])
    ensures CollapseSpace(s) == [' '] + CollapseSpace(LStrip(s[1..]))
  {
  }

  /** Dropping the first character keeps the spacing single and, when the
      next character is not a space, the text stripped. */
  lemma SingleSpacedTail(s: string)
    requires s != [] && SingleSpaced(s)
    ensures SingleSpaced(s[1..])
    ensures IsStripped(s) && (|s| == 1 || !IsSpace(s[1])) ==> IsStripped(s[1..])
  {
    var t := s[1..];
    assert forall i | 0 <= i < |t| :: t[i] == s[i + 1];
  }

  /** In stripped, single-spaced text a space after the first character is
      followed by a word character, and the rest is stripped again. */
  lemma SpaceThenWord(s: string)
    requires |s| >= 2 && SingleSpaced(s) && IsStripped(s) && IsSpace(s[1])
    ensures s[1] == ' ' && |s| >= 3 && !IsSpace(s[2]) && IsStripped(s[2..])
  {
    assert !(IsSpace(s[1]) && IsSpace(s[2]));
  }

  /** `lstrip` leaves text that starts with a word character alone. */
  lemma LStripWord(u: string)
    requires u != [] && !IsSpace(u[0])
    ensures LStrip(u) == u
  {
  }

  /** The three substitutions and the character replacements after the link
      step change nothing in text with no `![`, hyphen, straight quote or
      period, whose whitespace is single interior spaces. */
  lemma AfterLinksPlain(s: string)
    requires NoEmbedStart(s) && '-' !in s && '"' !in s && '.' !in s
    requires SingleSpaced(s) && IsStripped(s)
    ensures var quoted := ReplaceChar(ReplaceChar(ReplaceChar(
              DeleteEmbeds(DeleteEmbeds(s, WikiImage), MarkdownImage), '-', ' '), '"', '“'), '"', '”');
      Strip(CollapseSpace(FullStops(quoted))) == s
  {
    DeleteEmbedsPlain(s, WikiImage);
    DeleteEmbedsPlain(s, MarkdownImage);
    ReplaceCharAbsent(s, '-', ' ');
    ReplaceCharAbsent(s, '"', '“');
    ReplaceCharAbsent(s, '"', '”');
    FullStopsPlain(s);
    CollapsePlain(s);
    StripOfStripped(s);
  }

  lemma FullStopsPlain(s: string)
    requires '.' !in s
    ensures FullStops(s) == s
  {
  }

  /** Plain text passes through `preprocess_text` unchanged. */
  lemma PreprocessKeepsPlainText(text: string)
    requires '[' !in text && '-' !in text && '"' !in text && '.' !in text
    requires SingleSpaced(text) && IsStripped(text)
    ensures Preprocess(text) == text
  {
    SubLinksPlain(text);
    AfterLinksPlain(text);
  }

  // ---------------------------------------------------------------------
  // Links and images

  /** The Markdown source of a link. */
  function LinkText(name: string, url: string): string
  {
    "[" + name + "](" + url + ")"
  }

  /** A link whose label has no `]` and whose target has no `)`, neither with a
      newline, is matched whole at the start of the text. */
  lemma MatchWholeLink(name: string, url: string, rest: string)
    requires ']' !in name && '\n' !in name && ')' !in url && '\n' !in url
    ensures MatchLink(LinkText(name, url) + rest) == Some(LinkMatch(|name| + 1, |name| + |url| + 4))
  {
    var s := LinkText(name, url) + rest;
    var j, q, e := |name| + 1, |name| + 2, |name| + |url| + 4;
    assert forall t | 0 < t < j :: s[t] == name[t - 1];
    assert forall t | q < t < e - 1 :: s[t] == url[t - q - 1];
    assert LinkShape(s, j, q, e);
    var m := MatchLink(s).value;
    var q' :| LinkShape(s, m.close, q', m.end);
    assert m.close <= j;
  }

  /** A link becomes its label, whatever follows it. */
  lemma SubLinksLink(name: string, url: string, rest: string)
    requires ']' !in name && '\n' !in name && ')' !in url && '\n' !in url
    ensures SubLinks(LinkText(name, url) + rest) == name + SubLinks(rest)
  {
    var s := LinkText(name, url) + rest;
    MatchWholeLink(name, url, rest);
    assert s[1..|name| + 1] == name;
    assert s[|name| + |url| + 4..] == rest;
  }

  /** Text with no `[` is copied through the link step as it is. */
  lemma {:induction false} SubLinksPlainPrefix(a: string, b: string)
    requires '[' !in a
    ensures SubLinks(a + b) == a + SubLinks(b)
    decreases |a|
  {
    if a != [] {
      assert (a + b)[1..] == a[1..] + b;
      SubLinksPlainPrefix(a[1..], b);
    } else {
      assert a + b == b;
    }
  }

  /** When the link step already leaves plain text, that is the result. */
  lemma PreprocessAfterLinks(text: string)
    requires var s := SubLinks(text);
      NoEmbedStart(s) && '-' !in s && '"' !in s && '.' !in s && SingleSpaced(s) && IsStripped(s)
    ensures Preprocess(text) == SubLinks(text)
  {
    AfterLinksPlain(SubLinks(text));
  }

  /** Because links are rewritten before images are deleted, a Markdown image
      `![alt](url)` is not deleted: it comes out as `!` followed by its alt text. */
  lemma ImageBecomesBangAlt(alt: string, url: string)
    requires ')' !in url && '\n' !in url
    requires '[' !in alt && ']' !in alt && '-' !in alt && '"' !in alt && '.' !in alt
    requires SingleSpaced(alt) && (alt == [] || (!IsSpace(alt[0]) && !IsSpace(alt[|alt| - 1])))
    ensures Preprocess("!" + LinkText(alt, url)) == "!" + alt
  {
    var link := LinkText(alt, url);
    assert SubLinks("!" + link) == "!" + alt by {
      SubLinksPlainPrefix("!", link);
      SubLinksLink(alt, url, "");
      assert link + "" == link;
    }
    BangAltClean(alt);
    PreprocessAfterLinks("!" + link);
  }

  /** `!` and a clean alt text leave nothing for the later rules to change. */
  lemma BangAltClean(alt: string)
    requires '[' !in alt && '-' !in alt && '"' !in alt && '.' !in alt
    requires SingleSpaced(alt) && (alt == [] || (!IsSpace(alt[0]) && !IsSpace(alt[|alt| - 1])))
    ensures var s := "!" + alt;
      NoEmbedStart(s) && '-' !in s && '"' !in s && '.' !in s && SingleSpaced(s) && IsStripped(s)
  {
    var s := "!" + alt;
    assert forall i | 1 <= i < |s| :: s[i] == alt[i - 1];
  }

  lemma NestedLinkMatch(s: string)
    requires s == "[[a](b)](c)"
    ensures MatchLink(s) == Some(LinkMatch(3, 7))
  {
    assert LinkShape(s, 3, 4, 7);
    var m := MatchLink(s).value;
    var q :| LinkShape(s, m.close, q, m.end);
    assert m.close != 1 && m.close != 2;
  }

  /** Where a link matches at the front, `SubLinks` keeps its label and goes on after it. */
  lemma SubLinksMatched(s: string, m: LinkMatch)
    requires MatchLink(s) == Some(m)
    ensures 1 <= m.close < m.end <= |s|
    ensures SubLinks(s) == s[1..m.close] + SubLinks(s[m.end..])
  {
  }

  lemma NestedLinkOnce(s: string)
    requires s == "[[a](b)](c)"
    ensures SubLinks(s) == "[a](c)"
  {
    NestedLinkMatch(s);
    SubLinksMatched(s, LinkMatch(3, 7));
    var inner, tail := s[1..3], s[7..];
    assert inner == ['[', 'a'] && tail == [']', '(', 'c', ')'];
    SubLinksPlain(tail);
    assert inner + tail == "[a](c)";
  }

  lemma SimpleLinkIsPlainAfterLinks(t: string)
    requires t == "[a](c)"
    ensures NoEmbedStart(t) && '-' !in t && '"' !in t && '.' !in t && SingleSpaced(t) && IsStripped(t)
  {
  }

  lemma PreprocessOfNested(s: string)
    requires s == "[[a](b)](c)"
    ensures Preprocess(s) == "[a](c)"
  {
    NestedLinkOnce(s);
    SimpleLinkIsPlainAfterLinks(SubLinks(s));
    PreprocessAfterLinks(s);
  }

  lemma PreprocessOfSimple(t: string)
    requires t == "[a](c)"
    ensures Preprocess(t) == "a"
  {
    assert LinkText("a", "c") + "" == t;
    SubLinksLink("a", "c", "");
    PreprocessAfterLinks(t);
  }

  /** `preprocess_text` is not idempotent: a link nested in a link label is
      unwrapped one level per application. */
  lemma PreprocessNotIdempotent(s: string)
    requires s == "[[a](b)](c)"
    ensures Preprocess(Preprocess(s)) != Preprocess(s)
  {
    PreprocessOfNested(s);
    PreprocessOfSimple(Preprocess(s));
  }
}
