/** `parse_markdown_content` of processors/md2html.py:51-62: the news file is
    cleared of horizontal rules, given a heading when it does not start with
    one, and cut into items at every line that starts with `##` and
    whitespace. Each regular expression is an explicit left-to-right
    scanner, as in the narration model. */
module News {
  import opened Text

  // ---------------------------------------------------------------------
  // `re.sub(r'---+', '', content)`

  /** Three dashes start at `i`: where `---+` can match. */
  predicate RuleAt(s: string, i: nat)
  {
    i + 3 <= |s| && s[i] == '-' && s[i + 1] == '-' && s[i + 2] == '-'
  }

  predicate NoRule(s: string)
  {
    forall i | 0 <= i < |s| :: !RuleAt(s, i)
  }

  /** How many dashes `s` starts with. */
  function Lead(s: string): nat
  {
    RunEnd(s, 0, '-')
  }

  /** Every run of three or more dashes is deleted; shorter runs stay. */
  function DropRules(s: string): string
    decreases |s|
  {
    if s == [] then []
    else if RuleAt(s, 0) then DropRules(s[RunEnd(s, 0, '-')..])
    else [s[0]] + DropRules(s[1..])
  }

  /** `s` without its dashes: what deleting runs of dashes must keep. */
  function Undashed(s: string): string
  {
    if s == [] then [] else (if s[0] == '-' then [] else [s[0]]) + Undashed(s[1..])
  }

  lemma RuleAtLead(s: string)
    ensures RuleAt(s, 0) <==> Lead(s) >= 3
  {
    if 3 <= |s| && s[0] == '-' && s[1] == '-' && s[2] == '-' {
      assert RunEnd(s, 0, '-') == RunEnd(s, 1, '-') == RunEnd(s, 2, '-') == RunEnd(s, 3, '-');
    } else if |s| >= 1 && s[0] == '-' {
      if |s| >= 2 && s[1] == '-' {
        assert RunEnd(s, 0, '-') == RunEnd(s, 1, '-') == RunEnd(s, 2, '-');
      }
    }
  }

  lemma RuleAtSuffix(s: string, k: nat, i: nat)
    requires k <= |s| && k + i < |s|
    ensures RuleAt(s[k..], i) == RuleAt(s, k + i)
  {
  }

  lemma NoRuleSlice(s: string, a: nat, b: nat)
    requires NoRule(s) && a <= b <= |s|
    ensures NoRule(s[a..b])
  {
    forall i | 0 <= i < b - a ensures !RuleAt(s[a..b], i) {
      assert !RuleAt(s, a + i);
    }
  }

  /** A dash run cannot straddle two texts when a non-dash meets the seam. */
  lemma NoRuleJoin(a: string, b: string)
    requires NoRule(a) && NoRule(b)
    requires a == [] || b == [] || a[|a| - 1] != '-' || b[0] != '-'
    ensures NoRule(a + b)
  {
    var s := a + b;
    forall i | 0 <= i < |s| ensures !RuleAt(s, i) {
      if i + 3 <= |a| {
        assert s[i..i + 3] == a[i..i + 3];
        assert !RuleAt(a, i);
      } else if i >= |a| {
        assert !RuleAt(b, i - |a|);
      }
    }
  }

  /** What is left starts with the dashes of `s` when they are fewer than
      three, with none otherwise, and holds no rule anywhere. */
  lemma {:induction false} DropRulesClean(s: string)
    ensures Lead(DropRules(s)) == (if Lead(s) >= 3 then 0 else Lead(s))
    ensures NoRule(DropRules(s))
    decreases |s|
  {
    var r := DropRules(s);
    RuleAtLead(s);
    if s == [] {
    } else if RuleAt(s, 0) {
      var e := RunEnd(s, 0, '-');
      DropRulesClean(s[e..]);
      if e < |s| {
        assert s[e..][0] != '-';
        assert Lead(s[e..]) == 0;
      }
    } else {
      var rest := DropRules(s[1..]);
      DropRulesClean(s[1..]);
      assert r == [s[0]] + rest;
      if s[0] == '-' {
        assert RunEnd(s, 0, '-') == RunEnd(s, 1, '-');
        LeadShift(s);
      }
      assert Lead(r) == (if s[0] == '-' then 1 + Lead(rest) else 0) by {
        LeadCons(s[0], rest);
      }
      RuleAtLead(r);
      forall i | 0 <= i < |r| ensures !RuleAt(r, i) {
        if i > 0 {
          RuleAtSuffix(r, 1, i - 1);
          assert r[1..] == rest;
        }
      }
    }
  }

  lemma LeadShift(s: string)
    requires s != [] && s[0] == '-'
    ensures Lead(s) == 1 + Lead(s[1..])
  {
    DashEndShift(s, 1);
  }

  lemma {:induction false} DashEndShift(s: string, j: nat)
    requires 1 <= j <= |s| && forall t | 0 <= t < j :: s[t] == '-'
    ensures RunEnd(s, 0, '-') == j + RunEnd(s[j..], 0, '-')
    ensures RunEnd(s, 0, '-') == 1 + RunEnd(s[1..], 0, '-')
    decreases |s| - j
  {
    if j < |s| && s[j] == '-' {
      DashEndShift(s, j + 1);
      DashEndSlice(s, j);
    } else {
      DashEndSlice(s, j);
    }
  }

  /** Counting dashes of a suffix from its start counts them in the whole text. */
  lemma {:induction false} DashEndSlice(s: string, j: nat)
    requires j <= |s|
    ensures forall k | j <= k <= |s| :: RunEnd(s[j..], k - j, '-') + j == RunEnd(s, k, '-')
    decreases |s| - j
  {
    forall k | j <= k <= |s| ensures RunEnd(s[j..], k - j, '-') + j == RunEnd(s, k, '-') {
      DashEndFrom(s, j, k);
    }
  }

  lemma {:induction false} DashEndFrom(s: string, j: nat, k: nat)
    requires j <= k <= |s|
    ensures RunEnd(s[j..], k - j, '-') + j == RunEnd(s, k, '-')
    decreases |s| - k
  {
    if k < |s| && s[k] == '-' {
      DashEndFrom(s, j, k + 1);
    }
  }

  lemma LeadCons(c: char, rest: string)
    ensures Lead([c] + rest) == if c == '-' then 1 + Lead(rest) else 0
  {
    if c == '-' {
      LeadShift([c] + rest);
      assert ([c] + rest)[1..] == rest;
    }
  }

  /** Text without a rule is left alone. */
  lemma {:induction false} DropRulesPlain(s: string)
    requires NoRule(s)
    ensures DropRules(s) == s
    decreases |s|
  {
    if s != [] {
      assert !RuleAt(s, 0);
      NoRuleSlice(s, 1, |s|);
      assert s[1..|s|] == s[1..];
      DropRulesPlain(s[1..]);
    }
  }

  /** Only dashes are deleted: every other character stays, in order. */
  lemma {:induction false} DropRulesKeepsText(s: string)
    ensures Undashed(DropRules(s)) == Undashed(s)
    decreases |s|
  {
    if s != [] {
      if RuleAt(s, 0) {
        var e := RunEnd(s, 0, '-');
        DropRulesKeepsText(s[e..]);
        UndashedSkip(s, e);
      } else {
        DropRulesKeepsText(s[1..]);
        assert ([s[0]] + DropRules(s[1..]))[1..] == DropRules(s[1..]);
      }
    }
  }

  /** Text without a rule that does not end in a dash comes through
      untouched, whatever follows it: dashes in runs of one or two survive
      even when a rule occurs later. */
  lemma {:induction false} DropRulesPrefix(a: string, b: string)
    requires NoRule(a) && (a == [] || a[|a| - 1] != '-')
    ensures DropRules(a + b) == a + DropRules(b)
    decreases |a|
  {
    if a == [] {
      assert a + b == b;
    } else {
      var tail := a[1..];
      NoRuleStart(a, b);
      DropRulesKeep(a + b);
      assert (a + b)[1..] == tail + b;
      NoRuleSlice(a, 1, |a|);
      assert a[1..|a|] == tail;
      DropRulesPrefix(tail, b);
      assert a == [a[0]] + tail;
    }
  }

  /** Where no rule starts, the first character is kept. */
  lemma DropRulesKeep(s: string)
    requires s != [] && !RuleAt(s, 0)
    ensures DropRules(s) == [s[0]] + DropRules(s[1..])
  {
  }

  lemma NoRuleStart(a: string, b: string)
    requires NoRule(a) && a != [] && a[|a| - 1] != '-'
    ensures !RuleAt(a + b, 0)
  {
    var s := a + b;
    if |a| >= 3 {
      assert s[..3] == a[..3];
      assert !RuleAt(a, 0);
    } else {
      assert s[|a| - 1] == a[|a| - 1];
    }
  }

  /** A rule of three or more dashes goes entirely, and the text after it
      is treated on its own. */
  lemma DropRulesRule(run: string, b: string)
    requires |run| >= 3 && forall t | 0 <= t < |run| :: run[t] == '-'
    requires b == [] || b[0] != '-'
    ensures DropRules(run + b) == DropRules(b)
  {
    var s := run + b;
    assert forall t | 0 <= t < |run| :: s[t] == '-';
    assert |run| < |s| ==> s[|run|] == b[0];
    var e := RunEnd(s, 0, '-');
    assert e == |run|;
    assert s[e..] == b;
  }

  lemma {:induction false} UndashedSkip(s: string, e: nat)
    requires e <= |s| && forall t | 0 <= t < e :: s[t] == '-'
    ensures Undashed(s) == Undashed(s[e..])
    decreases e
  {
    if e > 0 {
      UndashedSkip(s[1..], e - 1);
      assert s[1..][e - 1..] == s[e..];
    }
  }

  // ---------------------------------------------------------------------
  // `content.split('##')` and the synthetic heading

  /** The first `##` in `s`, as `str.find('##')`. */
  function FindPair(s: string): (r: Option<nat>)
    ensures r.None? <==> !HasHashPair(s)
    ensures r.Some? ==> r.value + 1 < |s| && s[r.value] == '#' && s[r.value + 1] == '#'
    ensures r.Some? ==> !HasHashPair(s[..r.value + 1])
    decreases |s|
  {
    if |s| < 2 then None
    else if s[0] == '#' && s[1] == '#' then
      assert !HasHashPair(s[..1]);
      Some(0)
    else match FindPair(s[1..])
      case None =>
        assert !HasHashPair(s) by {
          forall i | 0 <= i < |s| - 1 ensures !(s[i] == '#' && s[i + 1] == '#') {
            if i > 0 { assert s[i] == s[1..][i - 1] && s[i + 1] == s[1..][i]; }
          }
        }
        None
      case Some(p) =>
        assert !HasHashPair(s[..p + 2]) by {
          var t := s[..p + 2];
          forall i | 0 <= i < |t| - 1 ensures !(t[i] == '#' && t[i + 1] == '#') {
            if i > 0 { assert t[i] == s[1..][..p + 1][i - 1] && t[i + 1] == s[1..][..p + 1][i]; }
          }
        }
        Some(p + 1)
  }

  /** `s.split('##')`. */
  function SplitPairs(s: string): (r: seq<string>)
    ensures |r| >= 1
    decreases |s|
  {
    match FindPair(s)
    case None => [s]
    case Some(p) => [s[..p]] + SplitPairs(s[p + 2..])
  }

  /** `'##'.join(s.split('##')) == s`. */
  lemma {:induction false} JoinSplitPairs(s: string)
    ensures Join(SplitPairs(s), "##") == s
    decreases |s|
  {
    match FindPair(s)
    case None =>
    case Some(p) =>
      var rest := SplitPairs(s[p + 2..]);
      JoinSplitPairs(s[p + 2..]);
      assert SplitPairs(s) == [s[..p]] + rest;
      assert ([s[..p]] + rest)[1..] == rest;
      assert s == s[..p] + "##" + s[p + 2..];
  }

  /** The first piece is the text before the first `##`; the others,
      re-joined, are the text after it. */
  lemma SplitPairsHead(s: string, p: nat)
    requires FindPair(s) == Some(p)
    ensures SplitPairs(s)[0] == s[..p]
    ensures Join(SplitPairs(s)[1..], "##") == s[p + 2..]
  {
    var rest := SplitPairs(s[p + 2..]);
    assert SplitPairs(s) == [s[..p]] + rest;
    JoinSplitPairs(s[p + 2..]);
    assert SplitPairs(s)[1..] == rest;
  }

  /** The line put in front of a file that does not start with a heading. */
  const Banner: string := "## AI 行业早报\n"

  /** md2html.py:55-59. */
  function AddHeading(c: string): string
  {
    if StartsWith(Strip(c), "##") then c
    else if HasHashPair(c) then
      var parts := SplitPairs(c);
      Banner + parts[0] + "\n##" + Join(parts[1..], "##")
    else Banner + c
  }

  /** The text before the first `##` becomes the body of the synthetic
      heading, and everything from that `##` on follows on its own line. */
  lemma AddHeadingSplice(c: string, p: nat)
    requires !StartsWith(Strip(c), "##") && FindPair(c) == Some(p)
    ensures AddHeading(c) == Banner + c[..p] + "\n##" + c[p + 2..]
  {
    SplitPairsHead(c, p);
  }

  /** A file with no `##` at all becomes the body of the synthetic heading. */
  lemma AddHeadingPlain(c: string)
    requires !HasHashPair(c)
    ensures AddHeading(c) == Banner + c
  {
    if StartsWith(Strip(c), "##") {
      StripStartsPair(c);
    }
  }

  /** A stripped text starting with `##` means a `##` in the text. */
  lemma StripStartsPair(c: string)
    requires StartsWith(Strip(c), "##")
    ensures HasHashPair(c)
  {
    var n := LeadingSpace(c);
    StripAt(c, 0);
    StripAt(c, 1);
    assert Strip(c)[..2][0] == c[n] && Strip(c)[..2][1] == c[n + 1];
  }

  lemma BannerNoRule()
    ensures NoRule(Banner) && Banner[|Banner| - 1] == '\n'
  {
    forall i | 0 <= i < |Banner| ensures !RuleAt(Banner, i) {
      assert Banner[i] != '-';
    }
  }

  /** Gluing rule-free texts with the banner and `\n##` makes no rule. */
  lemma SpliceNoRule(x: string, y: string)
    requires NoRule(x) && NoRule(y)
    ensures NoRule(Banner + x + "\n##" + y)
  {
    BannerNoRule();
    NoRuleJoin(Banner, x);
    assert NoRule("\n##");
    NoRuleJoin(Banner + x, "\n##");
    NoRuleJoin(Banner + x + "\n##", y);
  }

  lemma SpliceAtNoRule(c: string, p: nat)
    requires NoRule(c) && p + 2 <= |c|
    ensures NoRule(Banner + c[..p] + "\n##" + c[p + 2..])
  {
    NoRuleSlice(c, 0, p);
    NoRuleSlice(c, p + 2, |c|);
    assert c[0..p] == c[..p] && c[p + 2..|c|] == c[p + 2..];
    SpliceNoRule(c[..p], c[p + 2..]);
  }

  /** The heading step leaves no rule behind where there was none. */
  lemma AddHeadingNoRule(c: string)
    requires NoRule(c)
    ensures NoRule(AddHeading(c))
  {
    if !StartsWith(Strip(c), "##") {
      if HasHashPair(c) {
        var p := FindPair(c).value;
        AddHeadingSplice(c, p);
        SpliceAtNoRule(c, p);
      } else {
        AddHeadingPlain(c);
        BannerNoRule();
        NoRuleJoin(Banner, c);
      }
    }
  }

  // ---------------------------------------------------------------------
  // `re.split(r'(?m)^##\s+', content)`

  /** `^##\s+` can match at `i`: a line starts there with `##` and at least
      one whitespace character. */
  predicate MarkerAt(s: string, i: nat)
  {
    i + 2 < |s| && (i == 0 || s[i - 1] == '\n') && s[i] == '#' && s[i + 1] == '#' && IsSpace(s[i + 2])
  }

  /** The end of the whitespace run from `j`, which the greedy `\s+` takes
      (newlines included). */
  function SpaceEnd(s: string, j: nat): (e: nat)
    requires j <= |s|
    ensures j <= e <= |s| && IsBlank(s[j..e]) && (e < |s| ==> !IsSpace(s[e]))
    decreases |s| - j
  {
    if j < |s| && IsSpace(s[j]) then
      var e := SpaceEnd(s, j + 1);
      assert forall t | 0 < t < e - j :: s[j..e][t] == s[j + 1..e][t - 1];
      e
    else j
  }

  /** The pieces from `start`, the scan having reached `i` without a match
      since `start`. */
  function SplitFrom(s: string, start: nat, i: nat): (r: seq<string>)
    requires start <= i <= |s|
    ensures |r| >= 1
    decreases |s| - i
  {
    if i == |s| then [s[start..]]
    else if MarkerAt(s, i) then
      var e := SpaceEnd(s, i + 2);
      [s[start..i]] + SplitFrom(s, e, e)
    else SplitFrom(s, start, i + 1)
  }

  /** The matches of the marker, in order, in the same scan. */
  function MarksFrom(s: string, i: nat): seq<string>
    requires i <= |s|
    decreases |s| - i
  {
    if i == |s| then []
    else if MarkerAt(s, i) then
      var e := SpaceEnd(s, i + 2);
      [s[i..e]] + MarksFrom(s, e)
    else MarksFrom(s, i + 1)
  }

  function SplitHeadings(s: string): seq<string>
  {
    SplitFrom(s, 0, 0)
  }

  /** A matched marker: `##` and a non-empty run of whitespace. */
  predicate IsHeadingMark(m: string)
  {
    |m| >= 3 && m[0] == '#' && m[1] == '#' && IsBlank(m[2..])
  }

  /** The pieces with the markers put back between them. */
  function Weave(ps: seq<string>, ms: seq<string>): string
    requires |ps| == |ms| + 1
    decreases |ms|
  {
    if ms == [] then ps[0] else ps[0] + ms[0] + Weave(ps[1..], ms[1..])
  }

  /** The split loses nothing: pieces and markers, interleaved, give back the
      text, and every removed part is a marker. */
  lemma {:induction false} SplitFromWeave(s: string, start: nat, i: nat)
    requires start <= i <= |s|
    ensures |SplitFrom(s, start, i)| == |MarksFrom(s, i)| + 1
    ensures Weave(SplitFrom(s, start, i), MarksFrom(s, i)) == s[start..]
    ensures forall k | 0 <= k < |MarksFrom(s, i)| :: IsHeadingMark(MarksFrom(s, i)[k])
    decreases |s| - i, 1
  {
    if i == |s| {
    } else if MarkerAt(s, i) {
      SplitFromWeaveMark(s, start, i);
    } else {
      SplitFromWeave(s, start, i + 1);
    }
  }

  /** The step of the split where a marker matches at `i`. */
  lemma {:induction false} SplitFromWeaveMark(s: string, start: nat, i: nat)
    requires start <= i < |s| && MarkerAt(s, i)
    ensures |SplitFrom(s, start, i)| == |MarksFrom(s, i)| + 1
    ensures Weave(SplitFrom(s, start, i), MarksFrom(s, i)) == s[start..]
    ensures forall k | 0 <= k < |MarksFrom(s, i)| :: IsHeadingMark(MarksFrom(s, i)[k])
    decreases |s| - i, 0
  {
    var e := SpaceEnd(s, i + 2);
    SplitFromWeave(s, e, e);
    var ps, ms := SplitFrom(s, e, e), MarksFrom(s, e);
    assert SplitFrom(s, start, i) == [s[start..i]] + ps;
    assert MarksFrom(s, i) == [s[i..e]] + ms;
    WeaveSlices(s, start, i, e, ps, ms);
    HeadingMarkAt(s, i, e);
    MarksCons(s[i..e], ms);
  }

  /** A piece and a marker ahead of the woven rest of the text. */
  lemma WeaveSlices(s: string, start: nat, i: nat, e: nat, ps: seq<string>, ms: seq<string>)
    requires start <= i <= e <= |s| && |ps| == |ms| + 1 && Weave(ps, ms) == s[e..]
    ensures Weave([s[start..i]] + ps, [s[i..e]] + ms) == s[start..]
  {
    WeaveCons(s[start..i], s[i..e], ps, ms);
    SliceThree(s[start..], i - start, e - start);
    assert s[start..][..i - start] == s[start..i];
    assert s[start..][i - start..e - start] == s[i..e];
    assert s[start..][e - start..] == s[e..];
  }

  lemma HeadingMarkAt(s: string, i: nat, e: nat)
    requires MarkerAt(s, i) && e == SpaceEnd(s, i + 2)
    ensures IsHeadingMark(s[i..e])
  {
    assert s[i..e][2..] == s[i + 2..e];
  }

  lemma MarksCons(m: string, ms: seq<string>)
    requires IsHeadingMark(m) && forall k | 0 <= k < |ms| :: IsHeadingMark(ms[k])
    ensures forall k | 0 <= k < |ms| + 1 :: IsHeadingMark(([m] + ms)[k])
  {
    assert forall k | 0 < k < |ms| + 1 :: ([m] + ms)[k] == ms[k - 1];
  }

  lemma WeaveCons(p: string, m: string, ps: seq<string>, ms: seq<string>)
    requires |ps| == |ms| + 1
    ensures Weave([p] + ps, [m] + ms) == p + m + Weave(ps, ms)
  {
    assert ([p] + ps)[1..] == ps && ([m] + ms)[1..] == ms;
  }

  lemma SplitHeadingsWeave(s: string)
    ensures |SplitHeadings(s)| == |MarksFrom(s, 0)| + 1
    ensures Weave(SplitHeadings(s), MarksFrom(s, 0)) == s
    ensures forall k | 0 <= k < |MarksFrom(s, 0)| :: IsHeadingMark(MarksFrom(s, 0)[k])
  {
    SplitFromWeave(s, 0, 0);
    assert s[0..] == s;
  }

  /** No line inside `p` starts with a marker. */
  predicate NoInnerMarker(p: string)
  {
    forall k | 0 < k < |p| :: !MarkerAt(p, k)
  }

  lemma MarkerAtSlice(s: string, a: nat, b: nat, k: nat)
    requires a <= b <= |s| && 0 < k < b - a
    requires MarkerAt(s[a..b], k)
    ensures MarkerAt(s, a + k)
  {
    assert s[a..b][k - 1] == s[a + k - 1];
  }

  lemma NoInnerMarkerSlice(p: string, a: nat, b: nat)
    requires NoInnerMarker(p) && a <= b <= |p|
    ensures NoInnerMarker(p[a..b])
  {
    forall k | 0 < k < b - a ensures !MarkerAt(p[a..b], k) {
      if MarkerAt(p[a..b], k) {
        MarkerAtSlice(p, a, b, k);
      }
    }
  }

  /** Every piece and every rule-free property of the text carries over. */
  lemma {:induction false} SplitFromPieces(s: string, start: nat, i: nat)
    requires start <= i <= |s|
    requires forall k | start < k < i :: !MarkerAt(s, k)
    ensures forall k | 0 <= k < |SplitFrom(s, start, i)| :: NoInnerMarker(SplitFrom(s, start, i)[k])
    ensures NoRule(s) ==> forall k | 0 <= k < |SplitFrom(s, start, i)| :: NoRule(SplitFrom(s, start, i)[k])
    decreases |s| - i
  {
    var r := SplitFrom(s, start, i);
    if i == |s| {
      PieceClean(s, start, i);
      assert s[start..i] == s[start..];
    } else if MarkerAt(s, i) {
      var e := SpaceEnd(s, i + 2);
      SplitFromPieces(s, e, e);
      PieceClean(s, start, i);
      assert r == [s[start..i]] + SplitFrom(s, e, e);
    } else {
      SplitFromPieces(s, start, i + 1);
    }
  }

  lemma PieceClean(s: string, start: nat, i: nat)
    requires start <= i <= |s|
    requires forall k | start < k < i :: !MarkerAt(s, k)
    ensures NoInnerMarker(s[start..i])
    ensures NoRule(s) ==> NoRule(s[start..i])
  {
    forall k | 0 < k < i - start ensures !MarkerAt(s[start..i], k) {
      if MarkerAt(s[start..i], k) {
        MarkerAtSlice(s, start, i, k);
      }
    }
    if NoRule(s) {
      NoRuleSlice(s, start, i);
    }
  }

  /** With no marker from `i` on, the rest is one piece. */
  lemma {:induction false} SplitFromNone(s: string, start: nat, i: nat)
    requires start <= i <= |s|
    requires forall k | i <= k < |s| :: !MarkerAt(s, k)
    ensures SplitFrom(s, start, i) == [s[start..]]
    decreases |s| - i
  {
    if i < |s| {
      SplitFromNone(s, start, i + 1);
    }
  }

  // ---------------------------------------------------------------------
  // `[section.strip() for section in sections if section.strip()]`

  function KeepItems(ps: seq<string>): (r: seq<string>)
    ensures |r| <= |ps|
    ensures forall k | 0 <= k < |r| :: r[k] != [] && IsStripped(r[k])
  {
    if ps == [] then []
    else (if Strip(ps[0]) == [] then [] else [Strip(ps[0])]) + KeepItems(ps[1..])
  }

  /** Items keep what every piece had: no rule and no inner marker. */
  lemma {:induction false} KeepItemsClean(ps: seq<string>)
    requires forall k | 0 <= k < |ps| :: NoRule(ps[k]) && NoInnerMarker(ps[k])
    ensures forall k | 0 <= k < |KeepItems(ps)| :: NoRule(KeepItems(ps)[k]) && NoInnerMarker(KeepItems(ps)[k])
  {
    if ps != [] {
      KeepItemsClean(ps[1..]);
      StripClean(ps[0]);
      var head := if Strip(ps[0]) == [] then [] else [Strip(ps[0])];
      assert KeepItems(ps) == head + KeepItems(ps[1..]);
    }
  }

  /** A piece is kept exactly when it is not blank. */
  lemma KeepItemsBlank(p: string, ps: seq<string>)
    ensures KeepItems([p] + ps) == (if IsBlank(p) then [] else [Strip(p)]) + KeepItems(ps)
  {
    assert ([p] + ps)[1..] == ps;
  }

  /** md2html.py:51-62. */
  function ParseMarkdownContent(content: string): seq<string>
  {
    KeepItems(SplitHeadings(AddHeading(DropRules(content))))
  }

  /** Stripping keeps a text free of rules and of inner markers. */
  lemma StripClean(p: string)
    ensures NoInnerMarker(p) ==> NoInnerMarker(Strip(p))
    ensures NoRule(p) ==> NoRule(Strip(p))
  {
    if NoInnerMarker(p) {
      StripNoMarker(p);
    }
    if NoRule(p) {
      StripNoRule(p);
    }
  }

  lemma StripNoMarker(p: string)
    requires NoInnerMarker(p)
    ensures NoInnerMarker(Strip(p))
  {
    var r := Strip(p);
    var n := LeadingSpace(p);
    assert r == p[n..n + |r|];
    NoInnerMarkerSlice(p, n, n + |r|);
    assert NoInnerMarker(p[n..n + |r|]);
  }

  lemma StripNoRule(p: string)
    requires NoRule(p)
    ensures NoRule(Strip(p))
  {
    var r := Strip(p);
    var n := LeadingSpace(p);
    assert r == p[n..n + |r|];
    NoRuleSlice(p, n, n + |r|);
    assert NoRule(p[n..n + |r|]);
  }

  /** The items are non-empty and stripped, hold no `---` and no line that
      starts with a heading marker. */
  lemma ParseItems(content: string)
    ensures forall k | 0 <= k < |ParseMarkdownContent(content)| ::
      var item := ParseMarkdownContent(content)[k];
      && item != [] && IsStripped(item) && NoRule(item) && NoInnerMarker(item)
  {
    var c := AddHeading(DropRules(content));
    DropRulesClean(content);
    AddHeadingNoRule(DropRules(content));
    SplitFromPieces(c, 0, 0);
    KeepItemsClean(SplitHeadings(c));
  }

  /** After the banner, a text without `#` is not split again. */
  lemma PlainPieces(content: string)
    requires '#' !in content
    ensures SplitHeadings(Banner + content) == [[], "AI 行业早报\n" + content]
  {
    var s := Banner + content;
    assert MarkerAt(s, 0);
    assert SpaceEnd(s, 2) == 3 by {
      assert s[3] == 'A';
      assert SpaceEnd(s, 3) == 3;
    }
    forall k | 3 <= k < |s| ensures !MarkerAt(s, k) {
      if k < |Banner| {
        assert s[k] == Banner[k] != '#';
      } else {
        assert s[k] == content[k - |Banner|];
      }
    }
    SplitFromNone(s, 3, 3);
    assert s[3..] == "AI 行业早报\n" + content;
  }

  lemma KeepItemsOne(body: string)
    requires !IsBlank(body)
    ensures KeepItems([[], body]) == [Strip(body)]
  {
    assert IsBlank([]);
    assert [[], body][1..] == [body];
    assert [body][1..] == [];
  }

  /** A file without `#` and without `-` is one item under the synthetic
      heading. */
  lemma ParsePlain(content: string)
    requires '#' !in content && '-' !in content
    ensures ParseMarkdownContent(content) == [Strip("AI 行业早报\n" + content)]
  {
    var body := "AI 行业早报\n" + content;
    assert NoRule(content);
    DropRulesPlain(content);
    assert !HasHashPair(content);
    AddHeadingPlain(content);
    PlainPieces(content);
    assert !IsBlank(body) by {
      assert body[0] == 'A';
    }
    KeepItemsOne(body);
  }
}
