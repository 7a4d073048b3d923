/** String helpers that mirror the Python built-ins the pipeline relies on:
    `str.isspace` / the regex class `\s`, `str.strip`, `str.split` on one
    character, `str.join`, `str.replace`, `str.startswith` / `endswith`, and
    the decimal rendering of a natural number in an f-string. */
module Text {

  datatype Option<+T> = None | Some(value: T)

  /** Python's whitespace (`str.isspace`, and `\s` in a `str` pattern). */
  predicate IsSpace(c: char)
  {
    || c == ' '
    || ('\t' <= c <= '\r')
    || ('\U{1C}' <= c <= '\U{1F}')
    || c == '\U{85}' || c == '\U{A0}' || c == '\U{1680}'
    || ('\U{2000}' <= c <= '\U{200A}')
    || c == '\U{2028}' || c == '\U{2029}' || c == '\U{202F}' || c == '\U{205F}'
    || c == '\U{3000}'
  }

  predicate IsBlank(s: string)
  {
    forall i :: 0 <= i < |s| ==> IsSpace(s[i])
  }

  /** Neither end is whitespace: what `str.strip` leaves. */
  predicate IsStripped(s: string)
  {
    s == [] || (!IsSpace(s[0]) && !IsSpace(s[|s| - 1]))
  }

  /** The end of the run of `c` from `j`: what a greedy `c*` or `c+`
      consumes there (`[ ]*` in a link, `-+` in a rule). */
  function RunEnd(s: string, j: nat, c: char): (e: nat)
    requires j <= |s|
    ensures j <= e <= |s|
    ensures forall t | j <= t < e :: s[t] == c
    ensures e < |s| ==> s[e] != c
    decreases |s| - j
  {
    if j < |s| && s[j] == c then RunEnd(s, j + 1, c) else j
  }

  function LStrip(s: string): (r: string)
    ensures |r| <= |s| && r == s[|s| - |r|..]
    ensures r == [] || !IsSpace(r[0])
    ensures IsBlank(s[..|s| - |r|])
  {
    if s != [] && IsSpace(s[0]) then
      var r := LStrip(s[1..]);
      var n := |s| - |r|;
      assert forall t | 1 <= t < n :: s[t] == s[1..][..n - 1][t - 1];
      assert s[1..][|s| - 1 - |r|..] == s[n..];
      r
    else s
  }

  /** Where the trailing whitespace of `s` begins. */
  function StripEnd(s: string): (e: nat)
    ensures e <= |s| && IsBlank(s[e..]) && (e > 0 ==> !IsSpace(s[e - 1]))
    decreases |s|
  {
    if s != [] && IsSpace(s[|s| - 1]) then
      var e := StripEnd(s[..|s| - 1]);
      assert forall t | e <= t < |s| - 1 :: s[..|s| - 1][t] == s[t];
      e
    else |s|
  }

  /** How many whitespace characters `str.strip()` removes at the front. */
  function LeadingSpace(s: string): (n: nat)
    ensures n <= |s| && IsBlank(s[..n]) && (n < |s| ==> !IsSpace(s[n]))
  {
    |s| - |LStrip(s)|
  }

  lemma LeadingSpaceIsSpace(s: string, j: nat)
    requires j < LeadingSpace(s)
    ensures IsSpace(s[j])
  {
    assert s[..LeadingSpace(s)][j] == s[j];
  }

  /** `str.strip()`: the infix left after removing whitespace at both ends. */
  function Strip(s: string): (r: string)
    ensures IsStripped(r)
    ensures LeadingSpace(s) + |r| <= |s| && r == s[LeadingSpace(s)..LeadingSpace(s) + |r|]
    ensures IsBlank(s[LeadingSpace(s) + |r|..])
    ensures r == [] <==> IsBlank(s)
  {
    var i, e := LeadingSpace(s), StripEnd(s);
    StripBounds(s, i, e);
    if e <= i then [] else s[i..e]
  }

  /** The stripped part runs from `i` to `e`, or is empty when `s` is blank. */
  lemma StripBounds(s: string, i: nat, e: nat)
    requires i <= |s| && IsBlank(s[..i]) && (i < |s| ==> !IsSpace(s[i]))
    requires e <= |s| && IsBlank(s[e..]) && (e > 0 ==> !IsSpace(s[e - 1]))
    ensures var r := if e <= i then [] else s[i..e];
      && IsStripped(r) && i + |r| <= |s| && r == s[i..i + |r|] && IsBlank(s[i + |r|..])
      && (r == [] <==> IsBlank(s))
  {
    if e <= i {
      assert i == |s|;
      forall t | 0 <= t < |s| ensures IsSpace(s[t]) {
        assert s[..i][t] == s[t];
      }
    } else {
      var r := s[i..e];
      assert r[0] == s[i] && r[|r| - 1] == s[e - 1];
      assert !IsSpace(s[e - 1]);
    }
  }

  /** `str.lstrip()` is `s` read from `LeadingSpace(s)`. */
  lemma LStripFrom(s: string)
    ensures var i := LeadingSpace(s);
      LStrip(s) == s[i..] && IsBlank(s[..i]) && |s| - |LStrip(s)| == i
  {
  }

  /** Blank on both sides of a slice with non-blank ends: `strip` keeps
      exactly that slice. */
  lemma StripExact(s: string, i: nat, e: nat)
    requires i < e <= |s| && !IsSpace(s[i]) && !IsSpace(s[e - 1])
    requires IsBlank(s[..i]) && IsBlank(s[e..])
    ensures Strip(s) == s[i..e]
  {
    LeadingSpaceExact(s, i);
    StripEndExact(s, e);
  }

  lemma LeadingSpaceExact(s: string, i: nat)
    requires i < |s| && !IsSpace(s[i]) && IsBlank(s[..i])
    ensures LeadingSpace(s) == i
  {
    var n := LeadingSpace(s);
    LStripFrom(s);
    BlankPrefixAt(s, i);
    BlankPrefixAt(s, n);
  }

  lemma StripEndExact(s: string, e: nat)
    requires 0 < e <= |s| && !IsSpace(s[e - 1]) && IsBlank(s[e..])
    ensures StripEnd(s) == e
  {
    var m := StripEnd(s);
    BlankSuffixAt(s, m);
    BlankSuffixAt(s, e);
  }

  lemma BlankPrefixAt(s: string, i: nat)
    requires i <= |s| && IsBlank(s[..i])
    ensures forall t | 0 <= t < i :: IsSpace(s[t])
  {
    forall t | 0 <= t < i ensures IsSpace(s[t]) {
      assert s[..i][t] == s[t];
    }
  }

  lemma BlankSuffixAt(s: string, m: nat)
    requires m <= |s| && IsBlank(s[m..])
    ensures forall t | m <= t < |s| :: IsSpace(s[t])
  {
    forall t | m <= t < |s| ensures IsSpace(s[t]) {
      assert s[m..][t - m] == s[t];
    }
  }

  lemma StripAt(s: string, k: nat)
    requires k < |Strip(s)|
    ensures Strip(s)[k] == s[LeadingSpace(s) + k]
  {
  }

  /** A string is its leading space, its stripped form and its trailing space. */
  lemma StripSplit(s: string) returns (front: string, back: string)
    ensures s == front + Strip(s) + back && IsBlank(front) && IsBlank(back)
  {
    var n := LeadingSpace(s);
    var m := n + |Strip(s)|;
    SliceThree(s, n, m);
    front, back := s[..n], s[m..];
  }

  lemma SliceThree(s: string, n: nat, m: nat)
    requires n <= m <= |s|
    ensures s == s[..n] + s[n..m] + s[m..]
  {
  }

  lemma StripKeepsAbsent(s: string, c: char)
    requires c !in s
    ensures c !in Strip(s)
  {
    forall i | 0 <= i < |Strip(s)| ensures Strip(s)[i] != c {
      StripAt(s, i);
    }
  }

  lemma StripEmpty()
    ensures Strip([]) == []
  {
    assert IsBlank([]);
  }

  lemma StripOfStripped(s: string)
    requires IsStripped(s)
    ensures Strip(s) == s
  {
  }

  predicate StartsWith(s: string, p: string)
  {
    |p| <= |s| && s[..|p|] == p
  }

  predicate EndsWith(s: string, p: string)
  {
    |p| <= |s| && s[|s| - |p|..] == p
  }

  /** Python's `x in s` on two strings: `x` occurs as a contiguous part of `s`. */
  predicate Contains(s: string, x: string)
    decreases |s|
  {
    StartsWith(s, x) || (s != [] && Contains(s[1..], x))
  }

  /** The first index of `c` in `s`, as `str.find` does. */
  function IndexOf(s: string, c: char): (r: Option<nat>)
    ensures r.None? <==> c !in s
    ensures r.Some? ==> r.value < |s| && s[r.value] == c && c !in s[..r.value]
  {
    if s == [] then None
    else if s[0] == c then Some(0)
    else match IndexOf(s[1..], c)
      case None => None
      case Some(i) => assert s[..i + 1] == [s[0]] + s[1..][..i]; Some(i + 1)
  }

  /** `s.split(sep)` for a one-character separator. */
  function Split(s: string, sep: char): (r: seq<string>)
    ensures |r| >= 1
    ensures forall k :: 0 <= k < |r| ==> sep !in r[k]
    decreases |s|
  {
    match IndexOf(s, sep)
    case None => [s]
    case Some(i) => [s[..i]] + Split(s[i + 1..], sep)
  }

  lemma {:induction false} IndexOfFirst(s: string, c: char, p: nat)
    requires p < |s| && s[p] == c && c !in s[..p]
    ensures IndexOf(s, c) == Some(p)
  {
    if p > 0 {
      assert s[0] == s[..p][0];
      assert s[1..][..p - 1] == s[..p][1..];
      IndexOfFirst(s[1..], c, p - 1);
    }
  }

  /** Splitting at a first separator that follows `a` gives `a`, then the
      pieces of the rest. */
  lemma SplitCons(a: string, b: string, sep: char)
    requires sep !in a
    ensures Split(a + ([sep] + b), sep) == [a] + Split(b, sep)
  {
    var s := a + ([sep] + b);
    assert s[|a|] == sep;
    assert s[..|a|] == a && s[|a| + 1..] == b;
    IndexOfFirst(s, sep, |a|);
  }

  /** `sep.join(xs)`. */
  function Join(xs: seq<string>, sep: string): string
  {
    if |xs| == 0 then ""
    else if |xs| == 1 then xs[0]
    else xs[0] + sep + Join(xs[1..], sep)
  }

  lemma {:induction false} JoinSplit(s: string, sep: char)
    ensures Join(Split(s, sep), [sep]) == s
    decreases |s|
  {
    match IndexOf(s, sep)
    case None =>
    case Some(i) =>
      var rest := Split(s[i + 1..], sep);
      JoinSplit(s[i + 1..], sep);
      assert Split(s, sep) == [s[..i]] + rest;
      assert ([s[..i]] + rest)[1..] == rest;
      assert s == s[..i] + [sep] + s[i + 1..];
  }

  /** The first piece of `s.split(sep)` is everything before the first `sep`,
      and the remaining pieces re-joined are everything after it. */
  lemma SplitHeadTail(s: string, sep: char)
    ensures IndexOf(s, sep).None? ==> Split(s, sep) == [s]
    ensures IndexOf(s, sep).Some? ==>
      var i := IndexOf(s, sep).value;
      Split(s, sep)[0] == s[..i] && Join(Split(s, sep)[1..], [sep]) == s[i + 1..]
  {
    match IndexOf(s, sep)
    case None =>
    case Some(i) =>
      JoinSplit(s[i + 1..], sep);
      assert Split(s, sep)[1..] == Split(s[i + 1..], sep);
  }

  /** `s.replace(c, d)` for single characters. */
  function ReplaceChar(s: string, c: char, d: char): (r: string)
    ensures |r| == |s|
    ensures forall i :: 0 <= i < |s| ==> r[i] == (if s[i] == c then d else s[i])
  {
    if s == [] then [] else [if s[0] == c then d else s[0]] + ReplaceChar(s[1..], c, d)
  }

  lemma ReplaceCharAbsent(s: string, c: char, d: char)
    requires c !in s
    ensures ReplaceChar(s, c, d) == s
  {
  }

  /** `s.replace(c, t)` for a single character `c` and any replacement `t`. */
  function ReplaceCharBy(s: string, c: char, t: string): (r: string)
    ensures c !in t ==> c !in r
  {
    if s == [] then [] else (if s[0] == c then t else [s[0]]) + ReplaceCharBy(s[1..], c, t)
  }

  lemma {:induction false} ReplaceCharByConcat(a: string, b: string, c: char, t: string)
    ensures ReplaceCharBy(a + b, c, t) == ReplaceCharBy(a, c, t) + ReplaceCharBy(b, c, t)
  {
    if a != [] {
      ReplaceCharByConcat(a[1..], b, c, t);
      assert (a + b)[1..] == a[1..] + b;
    } else {
      assert a + b == b;
    }
  }

  lemma {:induction false} ReplaceCharByAbsent(s: string, c: char, t: string)
    requires c !in s
    ensures ReplaceCharBy(s, c, t) == s
  {
    if s != [] {
      ReplaceCharByAbsent(s[1..], c, t);
    }
  }

  /** Replacing the separator of a join re-joins with the replacement. */
  lemma {:induction false} ReplaceJoin(xs: seq<string>, c: char, t: string)
    requires forall k :: 0 <= k < |xs| ==> c !in xs[k]
    ensures ReplaceCharBy(Join(xs, [c]), c, t) == Join(xs, t)
  {
    if |xs| == 1 {
      ReplaceCharByAbsent(xs[0], c, t);
    } else if |xs| > 1 {
      ReplaceJoin(xs[1..], c, t);
      ReplaceCharByConcat(xs[0] + [c], Join(xs[1..], [c]), c, t);
      ReplaceCharByConcat(xs[0], [c], c, t);
      ReplaceCharByAbsent(xs[0], c, t);
      assert ReplaceCharBy([c], c, t) == t;
    }
  }

  /** `s.replace("##", "")`: non-overlapping occurrences, scanned from the left. */
  function DeleteHashPairs(s: string): (r: string)
    ensures |r| <= |s|
    ensures |s| > 0 && s[0] != '#' ==> r != [] && r[0] == s[0]
    ensures '#' !in s ==> r == s
  {
    if |s| >= 2 && s[0] == '#' && s[1] == '#' then DeleteHashPairs(s[2..])
    else if s == [] then []
    else [s[0]] + DeleteHashPairs(s[1..])
  }

  predicate HasHashPair(s: string)
  {
    exists i | 0 <= i < |s| - 1 :: s[i] == '#' && s[i + 1] == '#'
  }

  /** After `replace("##", "")` no "##" is left: every run of `#` shrinks to
      at most one character and runs are never joined. */
  lemma {:induction false} DeleteHashPairsComplete(s: string)
    ensures !HasHashPair(DeleteHashPairs(s))
    decreases |s|
  {
    if |s| >= 2 && s[0] == '#' && s[1] == '#' {
      DeleteHashPairsComplete(s[2..]);
    } else if s != [] {
      var t := DeleteHashPairs(s[1..]);
      DeleteHashPairsComplete(s[1..]);
      if s[0] == '#' && |s| > 1 {
        assert t != [] && t[0] == s[1] && s[1] != '#';
      }
    }
  }

  predicate IsDigit(c: char)
  {
    '0' <= c <= '9'
  }

  function DigitChar(d: nat): (c: char)
    requires d < 10
    ensures IsDigit(c) && c as int - '0' as int == d
  {
    ('0' as int + d) as char
  }

  /** `f"{n}"` for a natural number: its decimal digits, no leading zero. */
  function NatToString(n: nat): (r: string)
    ensures |r| >= 1
    ensures forall i :: 0 <= i < |r| ==> IsDigit(r[i])
    ensures |r| > 1 ==> r[0] != '0'
  {
    if n < 10 then [DigitChar(n)] else NatToString(n / 10) + [DigitChar(n % 10)]
  }

  /** Reads decimal digits back; the partner of `NatToString`. */
  function ParseNat(s: string): nat
    requires forall i :: 0 <= i < |s| ==> IsDigit(s[i])
  {
    if s == [] then 0
    else assert IsDigit(s[|s| - 1]); ParseNat(s[..|s| - 1]) * 10 + (s[|s| - 1] as int - '0' as int)
  }

  lemma {:induction false} ParseNatToString(n: nat)
    ensures ParseNat(NatToString(n)) == n
  {
    if n >= 10 {
      ParseNatToString(n / 10);
      var s := NatToString(n);
      assert s[..|s| - 1] == NatToString(n / 10);
    }
  }

  /** Python's `re.sub(r'\s+', ' ', s)`: every maximal whitespace run becomes one space. */
  function CollapseSpace(s: string): (r: string)
    ensures forall i :: 0 <= i < |r| && IsSpace(r[i]) ==> r[i] == ' '
    ensures forall i :: 0 <= i < |r| - 1 ==> !(IsSpace(r[i]) && IsSpace(r[i + 1]))
    ensures s != [] && !IsSpace(s[0]) ==> r != [] && r[0] == s[0]
    ensures s != [] && IsSpace(s[0]) ==> r != [] && r[0] == ' '
    ensures s == [] <==> r == []
    decreases |s|
  {
    if s == [] then []
    else if IsSpace(s[0]) then [' '] + CollapseSpace(LStrip(s[1..]))
    else [s[0]] + CollapseSpace(s[1..])
  }

  /** Collapsing brings in no character but the space. */
  lemma {:induction false} CollapseSpaceFrom(s: string, c: char)
    requires c != ' ' && c !in s
    ensures c !in CollapseSpace(s)
    decreases |s|
  {
    if s != [] {
      if IsSpace(s[0]) {
        var l := LStrip(s[1..]);
        assert c !in l by {
          assert forall i | 0 <= i < |l| :: l[i] == s[|s| - |l| + i];
        }
        CollapseSpaceFrom(l, c);
      } else {
        assert c !in s[1..] by {
          assert forall i | 0 <= i < |s| - 1 :: s[1..][i] == s[i + 1];
        }
        CollapseSpaceFrom(s[1..], c);
      }
    }
  }

  /** `"".join(xs)`. */
  function Concat(xs: seq<string>): string
  {
    if xs == [] then [] else xs[0] + Concat(xs[1..])
  }

  lemma ConcatCons(x: string, xs: seq<string>)
    ensures Concat([x] + xs) == x + Concat(xs)
  {
    assert ([x] + xs)[1..] == xs;
  }

  lemma StringAssoc(a: string, b: string, c: string)
    ensures (a + b) + c == a + (b + c)
  {
  }

  /** Joining two lists is joining each and concatenating. */
  lemma {:induction false} ConcatAppend(xs: seq<string>, ys: seq<string>)
    ensures Concat(xs + ys) == Concat(xs) + Concat(ys)
    decreases |xs|
  {
    if xs == [] {
      assert xs + ys == ys;
    } else {
      var head, tail := xs[0], xs[1..];
      assert xs == [head] + tail;
      assert xs + ys == [head] + (tail + ys);
      ConcatCons(head, tail + ys);
      ConcatCons(head, tail);
      ConcatAppend(tail, ys);
      StringAssoc(head, Concat(tail), Concat(ys));
    }
  }

  lemma ConcatSnoc(xs: seq<string>, x: string)
    ensures Concat(xs + [x]) == Concat(xs) + x
  {
    ConcatAppend(xs, [x]);
    assert [x] == [x] + [];
    ConcatCons(x, []);
  }
}
