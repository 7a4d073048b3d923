/** Sentence segmentation in `parse_markdown_and_generate_audio`
    (processors/md2audio.py): the normalised section body is split on the
    sentence marks `。 ? ! ，` keeping each mark, the pieces are glued back
    into sentences by an index-driven loop, and the result is stripped and
    filtered. */
module Segment {
  import opened Text

  /** A character of the split pattern's class `[。?!，]`. */
  predicate IsMark(c: char)
  {
    c == '。' || c == '?' || c == '!' || c == '，'
  }

  /** The string the loop tests membership against. */
  const Marks: string := "。?!，"

  predicate NoMark(s: string)
  {
    forall t | 0 <= t < |s| :: !IsMark(s[t])
  }

  /** The index of the first mark in `s`, if any. */
  function FirstMark(s: string): (r: Option<nat>)
    ensures r.Some? ==> r.value < |s| && IsMark(s[r.value]) && NoMark(s[..r.value])
    ensures r.None? ==> NoMark(s)
  {
    if s == [] then None
    else if IsMark(s[0]) then Some(0)
    else match FirstMark(s[1..])
      case None => None
      case Some(i) => assert s[..i + 1] == [s[0]] + s[1..][..i]; Some(i + 1)
  }

  /** `re.split(r'([。?!，])', s)`: mark-free fragments at the even indices,
      alternating with the captured one-character marks at the odd ones. */
  function SplitMarks(s: string): (parts: seq<string>)
    ensures |parts| % 2 == 1
    ensures forall k | 0 <= k < |parts| && k % 2 == 0 :: NoMark(parts[k])
    ensures forall k | 0 <= k < |parts| && k % 2 == 1 :: |parts[k]| == 1 && IsMark(parts[k][0])
    decreases |s|
  {
    match FirstMark(s)
    case None => [s]
    case Some(i) =>
      var rest := SplitMarks(s[i + 1..]);
      assert forall k | 2 <= k < 2 + |rest| :: ([s[..i], [s[i]]] + rest)[k] == rest[k - 2];
      [s[..i], [s[i]]] + rest
  }

  /** The split loses nothing: its parts concatenate back to the input. */
  lemma {:induction false} SplitMarksConcat(s: string)
    ensures Concat(SplitMarks(s)) == s
    decreases |s|
  {
    match FirstMark(s)
    case None =>
    case Some(i) =>
      var rest := SplitMarks(s[i + 1..]);
      SplitMarksConcat(s[i + 1..]);
      var parts := [s[..i], [s[i]]] + rest;
      assert parts[1..] == [[s[i]]] + rest && parts[1..][1..] == rest;
      assert s == s[..i] + [s[i]] + s[i + 1..];
  }

  /** A sentence as the loop builds it: mark-free text closed by one mark. */
  predicate IsSentence(p: string)
  {
    |p| >= 1 && IsMark(p[|p| - 1]) && NoMark(p[..|p| - 1])
  }

  /** What the recombination loop appends, read off the text directly: each
      fragment with the mark after it, then the trailing fragment with `。`
      appended unless it is blank. */
  function Pieces(s: string): (r: seq<string>)
    ensures forall k | 0 <= k < |r| :: IsSentence(r[k])
    decreases |s|
  {
    match FirstMark(s)
    case Some(i) =>
      assert (s[..i + 1])[..i] == s[..i];
      [s[..i + 1]] + Pieces(s[i + 1..])
    case None =>
      if IsBlank(s) then [] else
        assert (s + "。")[..|s|] == s;
        [s + "。"]
  }

  /** `[s.strip() for s in xs if s.strip()]`. */
  function Tidy(xs: seq<string>): (r: seq<string>)
    ensures |r| <= |xs|
    ensures forall k | 0 <= k < |r| :: r[k] != [] && IsStripped(r[k])
  {
    if xs == [] then [] else (if IsBlank(xs[0]) then [] else [Strip(xs[0])]) + Tidy(xs[1..])
  }

  /** The sentences of a normalised section body. */
  function Sentences(text: string): seq<string>
  {
    Tidy(Pieces(text))
  }

  lemma MarkInMarks(c: char)
    requires IsMark(c)
    ensures Contains(Marks, [c])
  {
    var m := Marks;
    assert m[..1] == ['。'] && m[1..][..1] == ['?'] && m[2..][..1] == ['!'] && m[3..][..1] == ['，'];
    assert m[1..][1..] == m[2..] && m[2..][1..] == m[3..];
  }

  /** One turn of the loop when the text left starts with a fragment and
      its mark: the two parts it joins are that sentence. */
  lemma MarkStep(t: string) returns (j: nat)
    requires |SplitMarks(t)| > 1
    ensures FirstMark(t) == Some(j)
    ensures SplitMarks(t)[0] + SplitMarks(t)[1] == t[..j + 1]
    ensures SplitMarks(t)[2..] == SplitMarks(t[j + 1..])
    ensures Pieces(t) == [t[..j + 1]] + Pieces(t[j + 1..])
  {
    j := FirstMark(t).value;
    assert t[..j + 1] == t[..j] + [t[j]];
  }

  /** The last turn: the part left is the whole remaining text. */
  lemma LastStep(t: string)
    requires |SplitMarks(t)| == 1 || !Contains(Marks, SplitMarks(t)[1])
    ensures SplitMarks(t) == [t]
    ensures Pieces(t) == (if IsBlank(t) then [] else [t + "。"])
  {
    if FirstMark(t).Some? {
      MarkInMarks(t[FirstMark(t).value]);
    }
  }

  /** A turn that joins a fragment with its mark, seen from the whole split
      list: the rest of the list is the split of the text after the mark. */
  lemma MarkTurn(text: string, pos: nat, parts: seq<string>, i: nat) returns (j: nat)
    requires pos <= |text| && i + 1 < |parts| && parts[i..] == SplitMarks(text[pos..])
    requires Contains(Marks, parts[i + 1])
    ensures pos + j + 1 <= |text| && i + 2 < |parts|
    ensures parts[i + 2..] == SplitMarks(text[pos + j + 1..])
    ensures Pieces(text[pos..]) == [parts[i] + parts[i + 1]] + Pieces(text[pos + j + 1..])
  {
    var here := text[pos..];
    assert parts[i..][0] == parts[i] && parts[i..][1] == parts[i + 1];
    j := MarkStep(here);
    assert parts[i + 2..] == parts[i..][2..];
    assert here[j + 1..] == text[pos + j + 1..];
  }

  /** The turn that ends the loop: the part is the rest of the text. */
  lemma LastTurn(text: string, pos: nat, parts: seq<string>, i: nat)
    requires pos <= |text| && i < |parts| && parts[i..] == SplitMarks(text[pos..])
    requires !(i + 1 < |parts| && Contains(Marks, parts[i + 1]))
    ensures i + 1 == |parts| && parts[i] == text[pos..]
    ensures Pieces(text[pos..]) == if IsBlank(parts[i]) then [] else [parts[i] + "。"]
  {
    var here := text[pos..];
    assert parts[i..][0] == parts[i];
    if i + 1 < |parts| {
      assert parts[i..][1] == parts[i + 1];
    }
    LastStep(here);
  }

  /** The invariant of the recombination loop: `parts[i..]` is the split of
      the text from `pos` on, and the sentences completed so far followed
      by the pieces of that rest are the pieces of the whole text. */
  ghost predicate Recombined(text: string, parts: seq<string>, i: nat, pos: nat, done: seq<string>)
  {
    && i <= |parts| && pos <= |text|
    && (i < |parts| ==> parts[i..] == SplitMarks(text[pos..]))
    && (i == |parts| ==> pos == |text|)
    && done + Pieces(text[pos..]) == Pieces(text)
  }

  /** A joining turn keeps the invariant. */
  lemma MarkTurnKeeps(text: string, parts: seq<string>, i: nat, pos: nat, done: seq<string>) returns (j: nat)
    requires Recombined(text, parts, i, pos, done)
    requires i + 1 < |parts| && Contains(Marks, parts[i + 1])
    ensures Recombined(text, parts, i + 2, pos + j + 1, done + [parts[i] + parts[i + 1]])
  {
    j := MarkTurn(text, pos, parts, i);
    var x := [parts[i] + parts[i + 1]];
    assert (done + x) + Pieces(text[pos + j + 1..]) == done + (x + Pieces(text[pos + j + 1..]));
  }

  /** The last turn keeps the invariant and ends the loop. */
  lemma LastTurnKeeps(text: string, parts: seq<string>, i: nat, pos: nat, done: seq<string>)
    requires Recombined(text, parts, i, pos, done) && i < |parts|
    requires !(i + 1 < |parts| && Contains(Marks, parts[i + 1]))
    ensures Recombined(text, parts, i + 1, |text|,
                       if IsBlank(parts[i]) then done else done + [parts[i] + "。"])
  {
    LastTurn(text, pos, parts, i);
    assert text[|text|..] == [] && Pieces([]) == [];
    if IsBlank(parts[i]) {
      assert done + [] == done;
    } else {
      assert (done + [parts[i] + "。"]) + [] == done + [parts[i] + "。"];
    }
  }

  lemma RecombinedStart(text: string)
    ensures Recombined(text, SplitMarks(text), 0, 0, [])
  {
    assert SplitMarks(text)[0..] == SplitMarks(text) && text[0..] == text;
  }

  lemma RecombinedEnd(text: string, parts: seq<string>, pos: nat, done: seq<string>)
    requires Recombined(text, parts, |parts|, pos, done)
    ensures done == Pieces(text)
  {
    assert text[pos..] == [] && Pieces([]) == [];
    assert done + [] == done;
  }

  /** The recombination loop of md2audio.py:147-156 followed by the filter of
      :161. The loop walks the split list; a ghost position `pos` tracks how
      much of the text the consumed parts cover. */
  method SplitSentences(text: string) returns (sentences: seq<string>)
    ensures sentences == Sentences(text)
    ensures forall k | 0 <= k < |sentences| :: IsStripped(sentences[k]) && IsSentence(sentences[k])
  {
    var parts := SplitMarks(text);
    var complete: seq<string> := [];
    var i := 0;
    ghost var pos: nat := 0;
    RecombinedStart(text);
    while i < |parts|
      invariant Recombined(text, parts, i, pos, complete)
      decreases |parts| - i
    {
      if i + 1 < |parts| && Contains(Marks, parts[i + 1]) {
        ghost var j := MarkTurnKeeps(text, parts, i, pos, complete);
        complete := complete + [parts[i] + parts[i + 1]];
        i := i + 2;
        pos := pos + j + 1;
      } else {
        LastTurnKeeps(text, parts, i, pos, complete);
        if !IsBlank(parts[i]) {
          complete := complete + [parts[i] + "。"];
        }
        i := i + 1;
        pos := |text|;
      }
    }
    RecombinedEnd(text, parts, pos, complete);
    sentences := Tidy(complete);
    SentencesShape(text);
  }

  // ---------------------------------------------------------------------
  // Properties of the segmentation

  lemma StripSentence(p: string)
    requires IsSentence(p)
    ensures IsSentence(Strip(p))
  {
    var r := Strip(p);
    var n := LeadingSpace(p);
    assert !IsSpace(p[|p| - 1]);
    assert r == p[n..];
    assert r[..|r| - 1] == p[..|p| - 1][n..];
  }

  lemma {:induction false} TidySentences(xs: seq<string>)
    requires forall k | 0 <= k < |xs| :: IsSentence(xs[k])
    ensures |Tidy(xs)| == |xs|
    ensures forall k | 0 <= k < |xs| :: Tidy(xs)[k] == Strip(xs[k]) && IsSentence(Tidy(xs)[k])
  {
    if xs != [] {
      assert !IsBlank(xs[0]);
      StripSentence(xs[0]);
      TidySentences(xs[1..]);
    }
  }

  /** Every sentence is non-empty and stripped, ends with exactly one mark and
      has no mark before it; no piece is dropped by the filter. */
  lemma SentencesShape(text: string)
    ensures |Sentences(text)| == |Pieces(text)|
    ensures forall k | 0 <= k < |Sentences(text)| ::
      IsStripped(Sentences(text)[k]) && IsSentence(Sentences(text)[k])
  {
    TidySentences(Pieces(text));
  }

  lemma {:induction false} PiecesAvoid(s: string, c: char)
    requires c !in s && c != '。'
    ensures forall k | 0 <= k < |Pieces(s)| :: c !in Pieces(s)[k]
    decreases |s|
  {
    match FirstMark(s)
    case Some(i) =>
      PiecesAvoid(s[i + 1..], c);
      assert forall t | 0 <= t <= i :: s[..i + 1][t] == s[t];
    case None =>
  }

  /** A character that is neither in the text nor the added full stop is in
      no sentence. */
  lemma SentencesAvoid(text: string, c: char)
    requires c !in text && c != '。'
    ensures forall k | 0 <= k < |Sentences(text)| :: c !in Sentences(text)[k]
  {
    PiecesAvoid(text, c);
    TidySentences(Pieces(text));
    forall k | 0 <= k < |Sentences(text)|
      ensures c !in Sentences(text)[k]
    {
      StripKeepsAbsent(Pieces(text)[k], c);
    }
  }

  /** Whether the text ends in a non-blank fragment without a mark, which
      the loop closes with an added `。`. */
  function NeedsStop(s: string): bool
    decreases |s|
  {
    match FirstMark(s)
    case Some(i) => NeedsStop(s[i + 1..])
    case None => !IsBlank(s)
  }

  function CountMarks(s: string): nat
  {
    if s == [] then 0 else (if IsMark(s[0]) then 1 else 0) + CountMarks(s[1..])
  }

  lemma {:induction false} CountMarksConcat(a: string, b: string)
    ensures CountMarks(a + b) == CountMarks(a) + CountMarks(b)
  {
    if a == [] {
      assert a + b == b;
    } else {
      assert (a + b)[1..] == a[1..] + b;
      CountMarksConcat(a[1..], b);
    }
  }

  lemma {:induction false} CountNoMark(s: string)
    requires NoMark(s)
    ensures CountMarks(s) == 0
  {
    if s != [] {
      CountNoMark(s[1..]);
    }
  }

  /** The marks of a text whose first mark is at `i`: that one and those after it. */
  lemma CountMarksAt(text: string, i: nat)
    requires FirstMark(text) == Some(i)
    ensures CountMarks(text) == 1 + CountMarks(text[i + 1..])
  {
    assert text == text[..i] + [text[i]] + text[i + 1..];
    CountMarksConcat(text[..i] + [text[i]], text[i + 1..]);
    CountMarksConcat(text[..i], [text[i]]);
    CountNoMark(text[..i]);
    assert CountMarks([text[i]]) == 1;
  }

  /** One sentence per mark in the text, plus one for a trailing fragment
      that needs a full stop. */
  lemma {:induction false} SentenceCount(text: string)
    ensures |Sentences(text)| == CountMarks(text) + (if NeedsStop(text) then 1 else 0)
    decreases |text|
  {
    SentencesShape(text);
    match FirstMark(text)
    case None =>
      CountNoMark(text);
    case Some(i) =>
      var rest := text[i + 1..];
      calc {
        |Sentences(text)|;
        |Pieces(text)|;
        1 + |Pieces(rest)|;
      == { SentencesShape(rest); }
        1 + |Sentences(rest)|;
      == { SentenceCount(rest); }
        1 + CountMarks(rest) + (if NeedsStop(rest) then 1 else 0);
      == { CountMarksAt(text, i); }
        CountMarks(text) + (if NeedsStop(text) then 1 else 0);
      }
  }

  /** The text with its whitespace taken out. */
  function Visible(s: string): string
  {
    if s == [] then [] else (if IsSpace(s[0]) then [] else [s[0]]) + Visible(s[1..])
  }

  lemma {:induction false} VisibleConcat(a: string, b: string)
    ensures Visible(a + b) == Visible(a) + Visible(b)
  {
    if a == [] {
      assert a + b == b;
    } else {
      assert (a + b)[1..] == a[1..] + b;
      VisibleConcat(a[1..], b);
    }
  }

  lemma {:induction false} VisibleBlank(s: string)
    requires IsBlank(s)
    ensures Visible(s) == []
  {
    if s != [] {
      VisibleBlank(s[1..]);
    }
  }

  lemma VisibleStrip(s: string)
    ensures Visible(Strip(s)) == Visible(s)
  {
    var front, back := StripSplit(s);
    VisibleTrim(front, Strip(s), back);
  }

  lemma VisibleTrim(front: string, r: string, back: string)
    requires IsBlank(front) && IsBlank(back)
    ensures Visible(front + r + back) == Visible(r)
  {
    calc {
      Visible(front + r + back);
    == { VisibleConcat(front + r, back); VisibleConcat(front, r); }
      Visible(front) + Visible(r) + Visible(back);
    == { VisibleBlank(front); VisibleBlank(back); }
      [] + Visible(r) + [];
    == { assert [] + Visible(r) + [] == Visible(r); }
      Visible(r);
    }
  }

  lemma {:induction false} VisibleConcatStrip(xs: seq<string>)
    ensures Visible(Concat(StripAll(xs))) == Visible(Concat(xs))
  {
    if xs != [] {
      VisibleConcatStrip(xs[1..]);
      assert StripAll(xs)[1..] == StripAll(xs[1..]);
      VisibleConcat(Strip(xs[0]), Concat(StripAll(xs[1..])));
      VisibleConcat(xs[0], Concat(xs[1..]));
      VisibleStrip(xs[0]);
    }
  }

  function StripAll(xs: seq<string>): (r: seq<string>)
    ensures |r| == |xs| && forall k | 0 <= k < |xs| :: r[k] == Strip(xs[k])
  {
    if xs == [] then [] else [Strip(xs[0])] + StripAll(xs[1..])
  }

  lemma {:induction false} PiecesKeepText(text: string)
    ensures Visible(Concat(Pieces(text))) == Visible(text) + (if NeedsStop(text) then "。" else "")
    decreases |text|
  {
    match FirstMark(text)
    case None =>
      if !IsBlank(text) {
        assert Pieces(text) == [text + "。"];
        assert Concat([text + "。"]) == text + "。";
        VisibleConcat(text, "。");
        assert Visible("。") == "。" by {
          assert "。"[1..] == [];
        }
      } else {
        VisibleBlank(text);
      }
    case Some(i) =>
      var rest := text[i + 1..];
      var head := text[..i + 1];
      var stop := if NeedsStop(rest) then "。" else "";
      calc {
        Visible(Concat(Pieces(text)));
      == { assert Pieces(text) == [head] + Pieces(rest); ConcatCons(head, Pieces(rest)); }
        Visible(head + Concat(Pieces(rest)));
      == { VisibleConcat(head, Concat(Pieces(rest))); }
        Visible(head) + Visible(Concat(Pieces(rest)));
      == { PiecesKeepText(rest); }
        Visible(head) + (Visible(rest) + stop);
      ==
        Visible(head) + Visible(rest) + stop;
      == { assert text == head + rest; VisibleConcat(head, rest); }
        Visible(text) + stop;
      }
  }

  /** Nothing is lost, added or reordered apart from whitespace: the sentences
      read in order are the text, with `。` after a trailing fragment that has
      no mark. */
  lemma SentencesKeepText(text: string)
    ensures Visible(Concat(Sentences(text))) == Visible(text) + (if NeedsStop(text) then "。" else "")
  {
    TidySentences(Pieces(text));
    assert Sentences(text) == StripAll(Pieces(text));
    VisibleConcatStrip(Pieces(text));
    PiecesKeepText(text);
  }
}
