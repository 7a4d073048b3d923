/** The section split of `parse_markdown_and_generate_audio`
    (processors/md2audio.py:112 and :133-135): every `##` heading with the
    text up to the next heading becomes a section, whose first line is the
    title and whose remaining lines are the body. */
module Sections {
  import opened Text

  /** `##` followed by at least one whitespace character: where the pattern
      `##\s+` can start a match. */
  predicate HeadingAt(s: string)
  {
    |s| >= 3 && s[0] == '#' && s[1] == '#' && IsSpace(s[2])
  }

  /** The lookahead `(?=\n##)` holds at index `k`. */
  predicate BreakAt(s: string, k: nat)
  {
    k + 3 <= |s| && s[k] == '\n' && s[k + 1] == '#' && s[k + 2] == '#'
  }

  /** No `\n##` occurs anywhere in `s`. */
  predicate NoBreak(s: string)
  {
    forall k: nat | k + 3 <= |s| :: !BreakAt(s, k)
  }

  /** The end of the lazy group `(.*?)` started at `w`: the first index from
      `w` on where `\n##` follows or the text ends (`\Z`). With DOTALL the
      group may cross newlines. */
  function GroupEnd(s: string, w: nat): (e: nat)
    requires w <= |s|
    ensures w <= e <= |s| && (e == |s| || BreakAt(s, e))
    ensures forall k | w <= k < e :: !BreakAt(s, k)
    decreases |s| - w
  {
    if w == |s| || BreakAt(s, w) then w else GroupEnd(s, w + 1)
  }

  /** `re.findall(r'##\s+(.*?)(?=\n##|\Z)', s, re.DOTALL)`. The pattern is not
      anchored, so a match starts at the leftmost `##` followed by
      whitespace; `\s+` takes the whole whitespace run (the lazy group can
      always complete, so it never gives any back); the next search starts
      where the group ended. Nothing looks behind, so scanning the suffix
      is scanning from that position. */
  function FindSections(s: string): (r: seq<string>)
    ensures forall j | 0 <= j < |r| :: NoBreak(r[j]) && (r[j] == [] || !IsSpace(r[j][0]))
    decreases |s|
  {
    if s == [] then []
    else if HeadingAt(s) then
      var w := 2 + LeadingSpace(s[2..]);
      var e := GroupEnd(s, w);
      GroupIsItem(s, w, e);
      [s[w..e]] + FindSections(s[e..])
    else FindSections(s[1..])
  }

  /** The group captured after a heading holds no `\n##` and does not start
      with whitespace. */
  lemma GroupIsItem(s: string, w: nat, e: nat)
    requires |s| >= 2 && w == 2 + LeadingSpace(s[2..]) && e == GroupEnd(s, w)
    ensures w <= e <= |s|
    ensures NoBreak(s[w..e]) && (s[w..e] == [] || !IsSpace(s[w..e][0]))
  {
    var g := s[w..e];
    forall k: nat | k + 3 <= |g| ensures !BreakAt(g, k) {
      assert !BreakAt(s, w + k);
      assert g[k] == s[w + k] && g[k + 1] == s[w + k + 1] && g[k + 2] == s[w + k + 2];
    }
    if w < e {
      assert s[w..e][0] == s[2..][w - 2];
    }
  }

  /** Text before the first `#` contributes no section. */
  lemma {:induction false} SkipPreamble(pre: string, s: string)
    requires '#' !in pre
    ensures FindSections(pre + s) == FindSections(s)
  {
    if pre != [] {
      assert (pre + s)[1..] == pre[1..] + s;
      SkipPreamble(pre[1..], s);
    } else {
      assert pre + s == s;
    }
  }

  /** A well-formed section text: it starts with a visible character and
      contains no `\n##`. */
  predicate IsItem(x: string)
  {
    x != [] && !IsSpace(x[0]) && NoBreak(x)
  }

  function Heading(x: string): string
  {
    "## " + x
  }

  /** The markdown document made of one `## ` heading per item, one after
      the other on separate lines. */
  function Document(items: seq<string>): string
  {
    Join(seq(|items|, j requires 0 <= j < |items| => Heading(items[j])), "\n")
  }

  lemma DocumentCons(items: seq<string>)
    requires |items| >= 2
    ensures Document(items) == Heading(items[0]) + "\n" + Document(items[1..])
  {
    var hs := seq(|items|, j requires 0 <= j < |items| => Heading(items[j]));
    assert hs[1..] == seq(|items| - 1, j requires 0 <= j < |items| - 1 => Heading(items[1..][j]));
  }

  /** Where the whitespace run after `##` ends in `## x` followed by anything. */
  lemma HeadingRun(s: string, x: string)
    requires x != [] && !IsSpace(x[0]) && |s| > 3 && s[..3] == "## " && s[3] == x[0]
    ensures HeadingAt(s) && 2 + LeadingSpace(s[2..]) == 3
  {
    assert s[0] == '#' && s[1] == '#' && s[2] == ' ' by {
      assert s[..3][0] == s[0] && s[..3][1] == s[1] && s[..3][2] == s[2];
    }
    var t := s[2..];
    var n := LeadingSpace(t);
    assert t[0] == ' ' && t[1] == x[0];
    assert IsSpace(t[0]) && !IsSpace(t[1]);
    if n >= 2 {
      LeadingSpaceIsSpace(t, 1);
    }
  }

  /** A `\n##` inside `s[w..m]` would be one in `x`, and one that
      straddles `m` is impossible when `m` ends `s` or starts a new line. */
  lemma NoEarlyBreak(s: string, x: string, w: nat, m: nat)
    requires w <= m <= |s| && s[w..m] == x && NoBreak(x)
    requires m < |s| ==> s[m] == '\n'
    ensures forall k | w <= k < m :: !BreakAt(s, k)
  {
    forall k | w <= k < m
      ensures !BreakAt(s, k)
    {
      if k + 3 <= m {
        assert s[k] == x[k - w] && s[k + 1] == x[k - w + 1] && s[k + 2] == x[k - w + 2];
        assert !BreakAt(x, k - w);
      }
    }
  }

  /** The match at the start of `## x` followed by `tail`, when `tail` is
      empty or starts a new heading line: its group is exactly `x`. */
  lemma FirstMatch(x: string, tail: string)
    requires IsItem(x)
    requires tail == [] || (|tail| >= 3 && tail[0] == '\n' && tail[1] == '#' && tail[2] == '#')
    ensures var s := Heading(x) + tail;
      && HeadingAt(s) && 2 + LeadingSpace(s[2..]) == 3 && GroupEnd(s, 3) == 3 + |x|
      && s[3..3 + |x|] == x && s[3 + |x|..] == tail
  {
    var s := Heading(x) + tail;
    var m := 3 + |x|;
    assert s[..3] == "## " && s[3] == x[0];
    HeadingRun(s, x);
    assert s[3..m] == x && s[m..] == tail;
    assert m < |s| ==> s[m] == tail[0];
    NoEarlyBreak(s, x, 3, m);
    assert m == |s| || BreakAt(s, m) by {
      if m < |s| {
        assert s[m + 1] == tail[1] && s[m + 2] == tail[2];
      }
    }
    var e := GroupEnd(s, 3);
    assert e == m;
  }

  /** The first section of `## x` followed by `tail`. */
  lemma FirstSection(x: string, tail: string)
    requires IsItem(x)
    requires tail == [] || (|tail| >= 3 && tail[0] == '\n' && tail[1] == '#' && tail[2] == '#')
    ensures FindSections(Heading(x) + tail) == [x] + FindSections(tail)
  {
    FirstMatch(x, tail);
  }

  lemma DocumentShape(items: seq<string>)
    requires |items| >= 2
    ensures var rest := Document(items[1..]);
      Document(items) == Heading(items[0]) + ("\n" + rest) && |rest| >= 2 && rest[0] == '#' && rest[1] == '#'
  {
    var rest := Document(items[1..]);
    DocumentCons(items);
    if |items| > 2 {
      DocumentCons(items[1..]);
    } else {
      assert rest == Heading(items[1]);
    }
    assert Heading(items[0]) + "\n" + rest == Heading(items[0]) + ("\n" + rest);
  }

  /** The split recovers exactly the items of a document of headings, the
      first heading included. */
  lemma {:induction false} DocumentSections(items: seq<string>)
    requires forall j | 0 <= j < |items| :: IsItem(items[j])
    ensures FindSections(Document(items)) == items
  {
    if |items| == 1 {
      assert Document(items) == Heading(items[0]) + [];
      FirstSection(items[0], []);
    } else if |items| > 1 {
      var rest := Document(items[1..]);
      DocumentShape(items);
      DocumentSections(items[1..]);
      FirstSection(items[0], "\n" + rest);
      SkipPreamble("\n", rest);
    }
  }

  /** A section's title line and body. */
  datatype Section = Section(title: string, content: string)

  /** `lines = section.strip().split('\n')`, the title `lines[0].strip()` and
      the body `'\n'.join(lines[1:]).strip()`: the title is the stripped
      first line and the body the stripped rest after the first newline. */
  function SplitSection(sec: string): Section
  {
    var t := Strip(sec);
    var lines := Split(t, '\n');
    Section(Strip(lines[0]), Strip(Join(lines[1..], "\n")))
  }

  /** The title is the stripped text up to its first newline and the body
      the stripped rest after it; both are stripped, the title holds no
      newline, and a text without newline is all title. */
  lemma SplitSectionShape(sec: string)
    ensures var r := SplitSection(sec);
      IsStripped(r.title) && IsStripped(r.content) && '\n' !in r.title
    ensures var r := SplitSection(sec);
      var t := Strip(sec);
      match IndexOf(t, '\n')
      case None => r.title == t && r.content == []
      case Some(i) => r.title == Strip(t[..i]) && r.content == Strip(t[i + 1..])
  {
    var t := Strip(sec);
    var lines := Split(t, '\n');
    SplitHeadTail(t, '\n');
    match IndexOf(t, '\n')
    case None => SplitSectionNone(sec, t, lines);
    case Some(i) => SplitSectionSome(sec, t, lines, i);
  }

  /** A stripped text without newline is one title line and no body. */
  lemma SplitSectionNone(sec: string, t: string, lines: seq<string>)
    requires t == Strip(sec) && lines == Split(t, '\n') && '\n' !in t && lines == [t]
    ensures SplitSection(sec) == Section(t, [])
    ensures IsStripped(t) && '\n' !in t
  {
    SplitSectionTitle(t, lines);
    SplitSectionNoBody(lines);
  }

  /** A stripped text with a newline at `i` is cut there. */
  lemma SplitSectionSome(sec: string, t: string, lines: seq<string>, i: nat)
    requires t == Strip(sec) && lines == Split(t, '\n')
    requires i < |t| && '\n' !in t[..i]
    requires lines[0] == t[..i] && Join(lines[1..], "\n") == t[i + 1..]
    ensures SplitSection(sec) == Section(Strip(t[..i]), Strip(t[i + 1..]))
    ensures '\n' !in Strip(t[..i])
  {
    StripKeepsAbsent(t[..i], '\n');
  }

  lemma SplitSectionTitle(t: string, lines: seq<string>)
    requires IsStripped(t) && lines == [t]
    ensures Strip(lines[0]) == t
  {
    StripOfStripped(t);
  }

  lemma SplitSectionNoBody(lines: seq<string>)
    requires |lines| == 1
    ensures Strip(Join(lines[1..], "\n")) == []
  {
    assert |lines[1..]| == 0;
    StripEmpty();
  }
}
