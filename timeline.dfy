/** The narration clock of `parse_markdown_and_generate_audio`
    (processors/md2audio.py:117-252): one millisecond clock runs over all
    sentences of all sections; every sentence the speech backend voices
    becomes a numbered caption, 300 ms of silence follow each voiced
    sentence but the last of its section, 1000 ms follow each processed
    section but the last, and every processed section leaves a timeline
    entry. The speech backend is an oracle and the merged audio is kept as
    its length in milliseconds. */
module Timeline {
  import opened Text
  import opened SrtTime
  import Normalize
  import Segment
  import opened Sections

  /** A clip the speech backend delivered: its length in milliseconds, and
      whether its temporary file was then removed. When `os.remove` raises,
      the handler of the sentence's `try` ends the turn after the caption
      was added and before the pause. */
  datatype Clip = Clip(ms: nat, removed: bool)

  /** The speech backend: for section `k` (its position in the split) and
      sentence `i` (counted from 1, as `enumerate(..., 1)` does), the clip
      read back, or `None` when generating or reading it fails. */
  type Oracle = (nat, nat) -> Option<Clip>

  /** `generate_silence(300)` between sentences and `generate_silence()`
      between sections. */
  const SentencePause: nat := 300
  const SectionPause: nat := 1000

  /** One subtitle entry: its number, start and end in milliseconds, and the text. */
  datatype Caption = Caption(index: nat, start: nat, end: nat, text: string)

  /** One timeline entry in milliseconds. */
  datatype Span = Span(title: string, start: nat, end: nat)

  /** The loop state: `current_time`, `sentence_index`, the captions behind
      `srt_content`, the length of `combined_audio` and the entries behind
      `timeline_data`. */
  datatype Build = Build(clock: nat, next: nat, captions: seq<Caption>, audio: nat, spans: seq<Span>)

  const Initial: Build := Build(0, 1, [], 0, [])

  /** The sentences spoken for a section body. */
  function SentencesOf(content: string): seq<string>
  {
    Segment.Sentences(Normalize.Preprocess(content))
  }

  /** What the loop makes of one section: its title, and the sentences of its
      body, or `None` when the body is empty and the section is skipped. */
  datatype Part = Part(title: string, body: Option<seq<string>>)

  function PartOf(section: string): Part
  {
    var sec := SplitSection(section);
    Part(sec.title, if sec.content == [] then None else Some(SentencesOf(sec.content)))
  }

  /** The parts of all sections, in order. */
  function Plan(markdown: string): (r: seq<Part>)
    ensures |r| == |FindSections(markdown)|
  {
    var secs := FindSections(markdown);
    seq(|secs|, k requires 0 <= k < |secs| => PartOf(secs[k]))
  }

  // ---------------------------------------------------------------------
  // The loop as a fold

  /** One turn of the sentence loop for sentence `i` of `n`: a blank sentence
      or a failed synthesis changes nothing; a voiced one adds its caption and
      its clip, then a pause unless it is the last of the section or its
      temporary file could not be removed. */
  function SentenceStep(b: Build, text: string, i: nat, n: nat, outcome: Option<Clip>): Build
  {
    if IsBlank(text) then b
    else match outcome
      case None => b
      case Some(clip) =>
        var d := clip.ms;
        var pause := if i < n && clip.removed then SentencePause else 0;
        Build(b.clock + d + pause, b.next + 1, b.captions + [Caption(b.next, b.clock, b.clock + d, text)],
              b.audio + d + pause, b.spans)
  }

  /** The sentence loop from sentence `j` (counted from 0) on. */
  function RunSentences(b: Build, k: nat, sents: seq<string>, j: nat, synth: Oracle): (r: Build)
    requires j <= |sents|
    ensures b.clock <= r.clock && r.spans == b.spans
    ensures |b.captions| <= |r.captions| && r.captions[..|b.captions|] == b.captions
    decreases |sents| - j
  {
    if j == |sents| then b
    else RunSentences(SentenceStep(b, sents[j], j + 1, |sents|, synth(k, j + 1)), k, sents, j + 1, synth)
  }

  /** One turn of the section loop: a section without body is skipped;
      otherwise its sentences run, a gap follows unless it is the last
      section, and an entry from the clock before to the clock after is
      appended. */
  function SectionStep(b: Build, parts: seq<Part>, k: nat, synth: Oracle): (r: Build)
    requires k < |parts|
    ensures b.clock <= r.clock
  {
    match parts[k].body
    case None => b
    case Some(sents) =>
      var ran := RunSentences(b, k, sents, 0, synth);
      var gap := if k < |parts| - 1 then SectionPause else 0;
      Build(ran.clock + gap, ran.next, ran.captions, ran.audio + gap,
            ran.spans + [Span(parts[k].title, b.clock, ran.clock + gap)])
  }

  /** The section loop from section `k` on. */
  function RunSections(b: Build, parts: seq<Part>, k: nat, synth: Oracle): (r: Build)
    requires k <= |parts|
    ensures b.clock <= r.clock
    decreases |parts| - k
  {
    if k == |parts| then b else RunSections(SectionStep(b, parts, k, synth), parts, k + 1, synth)
  }

  /** The whole run over a markdown document. */
  function Narrate(markdown: string, synth: Oracle): Build
  {
    RunSections(Initial, Plan(markdown), 0, synth)
  }

  // ---------------------------------------------------------------------
  // Invariants of the loop state

  /** Captions are numbered 1, 2, 3, ... and `next` is the following number. */
  predicate Numbered(b: Build)
  {
    && b.next == |b.captions| + 1
    && forall j | 0 <= j < |b.captions| :: b.captions[j].index == j + 1
  }

  /** Captions never run backwards or overlap, and the clock is past the last one. */
  predicate Ordered(b: Build)
  {
    && (forall j | 0 <= j < |b.captions| :: b.captions[j].start <= b.captions[j].end)
    && (forall j | 0 <= j < |b.captions| - 1 :: b.captions[j].end <= b.captions[j + 1].start)
    && (|b.captions| > 0 ==> b.captions[|b.captions| - 1].end <= b.clock)
  }

  /** The timeline entries tile the clock from 0: the first starts at 0, each
      ends where the next starts, and the last ends at the clock. */
  predicate Tiled(b: Build)
  {
    && (|b.spans| == 0 ==> b.clock == 0)
    && (|b.spans| > 0 ==> b.spans[0].start == 0 && b.spans[|b.spans| - 1].end == b.clock)
    && (forall j | 0 <= j < |b.spans| :: b.spans[j].start <= b.spans[j].end)
    && (forall j | 0 <= j < |b.spans| - 1 :: b.spans[j].end == b.spans[j + 1].start)
  }

  /** Everything the loop keeps true, including that the merged audio is
      exactly as long as the clock. */
  predicate Valid(b: Build)
  {
    Numbered(b) && Ordered(b) && b.audio == b.clock && Tiled(b)
  }

  lemma SentenceStepKeeps(b: Build, text: string, i: nat, n: nat, outcome: Option<Clip>)
    requires Numbered(b) && Ordered(b) && b.audio == b.clock
    ensures var r := SentenceStep(b, text, i, n, outcome);
      Numbered(r) && Ordered(r) && r.audio == r.clock
  {
  }

  lemma {:induction false} RunSentencesKeeps(b: Build, k: nat, sents: seq<string>, j: nat, synth: Oracle)
    requires j <= |sents|
    requires Numbered(b) && Ordered(b) && b.audio == b.clock
    ensures var r := RunSentences(b, k, sents, j, synth);
      Numbered(r) && Ordered(r) && r.audio == r.clock
    decreases |sents| - j
  {
    if j < |sents| {
      SentenceStepKeeps(b, sents[j], j + 1, |sents|, synth(k, j + 1));
      RunSentencesKeeps(SentenceStep(b, sents[j], j + 1, |sents|, synth(k, j + 1)), k, sents, j + 1, synth);
    }
  }

  lemma SectionStepKeeps(b: Build, parts: seq<Part>, k: nat, synth: Oracle)
    requires k < |parts| && Valid(b)
    ensures Valid(SectionStep(b, parts, k, synth))
  {
    if parts[k].body.Some? {
      var sents := parts[k].body.value;
      var ran := RunSentences(b, k, sents, 0, synth);
      var gap := if k < |parts| - 1 then SectionPause else 0;
      RunSentencesKeeps(b, k, sents, 0, synth);
      CloseKeeps(b, ran, parts[k].title, gap);
      SectionStepOf(b, parts, k, synth, sents, ran, gap, Span(parts[k].title, b.clock, ran.clock + gap));
    }
  }

  /** Closing a section after its sentences: the gap and the entry from the
      clock before to the clock after keep the state valid. */
  lemma CloseKeeps(b: Build, ran: Build, title: string, gap: nat)
    requires Valid(b) && Numbered(ran) && Ordered(ran) && ran.audio == ran.clock
    requires b.clock <= ran.clock && ran.spans == b.spans
    ensures Valid(Build(ran.clock + gap, ran.next, ran.captions, ran.audio + gap,
                        ran.spans + [Span(title, b.clock, ran.clock + gap)]))
  {
    var spans := ran.spans + [Span(title, b.clock, ran.clock + gap)];
    assert forall j | 0 <= j < |b.spans| :: spans[j] == b.spans[j];
  }

  lemma {:induction false} RunSectionsKeeps(b: Build, parts: seq<Part>, k: nat, synth: Oracle)
    requires k <= |parts| && Valid(b)
    ensures Valid(RunSections(b, parts, k, synth))
    decreases |parts| - k
  {
    if k < |parts| {
      SectionStepKeeps(b, parts, k, synth);
      RunSectionsKeeps(SectionStep(b, parts, k, synth), parts, k + 1, synth);
      RunSectionsUnfold(b, parts, k, synth);
    }
  }

  /** Whatever the backend does: captions are numbered 1, 2, 3, ... across
      all sections, each starts at or after the end of the one before, the
      merged audio is exactly as long as the final clock, and the timeline
      entries cover the clock from 0 without gap or overlap. */
  lemma NarrateValid(markdown: string, synth: Oracle)
    ensures Valid(Narrate(markdown, synth))
  {
    RunSectionsKeeps(Initial, Plan(markdown), 0, synth);
  }

  // ---------------------------------------------------------------------
  // What is said, counted independently of the loop

  /** A voiced sentence and the length of its clip. */
  datatype Utterance = Utterance(text: string, ms: int)

  /** What the captions say and how long each one lasts. */
  function Heard(caps: seq<Caption>): (r: seq<Utterance>)
    ensures |r| == |caps|
  {
    if caps == [] then [] else Heard(caps[..|caps| - 1]) + [Utterance(caps[|caps| - 1].text, caps[|caps| - 1].end - caps[|caps| - 1].start)]
  }

  /** The sentences of a section, from `j` on, that the backend voices. */
  function Voiced(k: nat, sents: seq<string>, j: nat, synth: Oracle): seq<Utterance>
    requires j <= |sents|
    decreases |sents| - j
  {
    if j == |sents| then []
    else
      (if !IsBlank(sents[j]) && synth(k, j + 1).Some? then [Utterance(sents[j], synth(k, j + 1).value.ms)] else [])
      + Voiced(k, sents, j + 1, synth)
  }

  /** The number of voiced sentences, from `j` on, that are not the last of
      their section and whose file was removed: each is followed by a pause. */
  function Pauses(k: nat, sents: seq<string>, j: nat, synth: Oracle): nat
    requires j <= |sents|
    decreases |sents| - j
  {
    if j == |sents| then 0
    else (if !IsBlank(sents[j]) && synth(k, j + 1).Some? && synth(k, j + 1).value.removed && j + 1 < |sents| then 1 else 0) + Pauses(k, sents, j + 1, synth)
  }

  function TotalMs(us: seq<Utterance>): int
  {
    if us == [] then 0 else us[0].ms + TotalMs(us[1..])
  }

  /** What section `k` says: nothing when it has no body. */
  function SectionVoiced(parts: seq<Part>, k: nat, synth: Oracle): seq<Utterance>
    requires k < |parts|
  {
    match parts[k].body
    case None => []
    case Some(sents) => Voiced(k, sents, 0, synth)
  }

  /** The sentence pauses of section `k`. */
  function SectionPauses(parts: seq<Part>, k: nat, synth: Oracle): nat
    requires k < |parts|
  {
    match parts[k].body
    case None => 0
    case Some(sents) => Pauses(k, sents, 0, synth)
  }

  /** What all sections from `k` on say. */
  function AllVoiced(parts: seq<Part>, k: nat, synth: Oracle): seq<Utterance>
    requires k <= |parts|
    decreases |parts| - k
  {
    if k == |parts| then [] else SectionVoiced(parts, k, synth) + AllVoiced(parts, k + 1, synth)
  }

  /** The pauses between sentences of all sections from `k` on. */
  function AllPauses(parts: seq<Part>, k: nat, synth: Oracle): nat
    requires k <= |parts|
    decreases |parts| - k
  {
    if k == |parts| then 0 else SectionPauses(parts, k, synth) + AllPauses(parts, k + 1, synth)
  }

  /** The processed sections from `k` on that are not the last section. */
  function Gaps(parts: seq<Part>, k: nat): nat
    requires k <= |parts|
    decreases |parts| - k
  {
    if k == |parts| then 0
    else (if parts[k].body.Some? && k < |parts| - 1 then 1 else 0) + Gaps(parts, k + 1)
  }

  /** The titles of the processed sections from `k` on, in order. */
  function Titles(parts: seq<Part>, k: nat): seq<string>
    requires k <= |parts|
    decreases |parts| - k
  {
    if k == |parts| then []
    else (if parts[k].body.Some? then [parts[k].title] else []) + Titles(parts, k + 1)
  }

  function SpanTitles(spans: seq<Span>): (r: seq<string>)
    ensures |r| == |spans|
  {
    if spans == [] then [] else SpanTitles(spans[..|spans| - 1]) + [spans[|spans| - 1].title]
  }

  lemma {:induction false} TotalMsConcat(a: seq<Utterance>, b: seq<Utterance>)
    ensures TotalMs(a + b) == TotalMs(a) + TotalMs(b)
  {
    if a == [] {
      assert a + b == b;
    } else {
      assert (a + b)[1..] == a[1..] + b;
      TotalMsConcat(a[1..], b);
    }
  }

  lemma {:induction false} HeardAppend(caps: seq<Caption>, more: seq<Caption>)
    ensures Heard(caps + more) == Heard(caps) + Heard(more)
    decreases |more|
  {
    if more == [] {
      assert caps + more == caps;
    } else {
      var last := more[|more| - 1];
      assert (caps + more)[..|caps + more| - 1] == caps + more[..|more| - 1];
      HeardAppend(caps, more[..|more| - 1]);
    }
  }

  lemma SentenceStepSays(b: Build, text: string, i: nat, n: nat, outcome: Option<Clip>)
    ensures var r := SentenceStep(b, text, i, n, outcome);
      var said := if !IsBlank(text) && outcome.Some? then [Utterance(text, outcome.value.ms)] else [];
      && Heard(r.captions) == Heard(b.captions) + said
      && r.clock == b.clock + TotalMs(said) + (if said != [] && i < n && outcome.value.removed then SentencePause else 0)
      && r.audio - b.audio == r.clock - b.clock
      && r.next == b.next + |said| && r.spans == b.spans
  {
    if !IsBlank(text) && outcome.Some? {
      var clip := outcome.value;
      var c := Caption(b.next, b.clock, b.clock + clip.ms, text);
      var pause := if i < n && clip.removed then SentencePause else 0;
      SentenceStepVoiced(b, text, i, n, clip,
        Build(b.clock + clip.ms + pause, b.next + 1, b.captions + [c], b.audio + clip.ms + pause, b.spans));
      HeardAppend(b.captions, [c]);
      HeardOne(c);
      TotalMsOne(Utterance(text, clip.ms));
    } else {
      SentenceStepSilent(b, text, i, n, outcome);
      AppendNil(Heard(b.captions));
    }
  }

  lemma HeardOne(c: Caption)
    ensures Heard([c]) == [Utterance(c.text, c.end - c.start)]
  {
    assert [c][..0] == [];
  }

  lemma TotalMsOne(u: Utterance)
    ensures TotalMs([u]) == u.ms
  {
    assert [u][1..] == [];
  }

  /** The sentence loop says exactly the voiced sentences, in order, each
      for the length of its clip. */
  lemma {:induction false} RunSentencesHeard(b: Build, k: nat, sents: seq<string>, j: nat, synth: Oracle)
    requires j <= |sents|
    ensures Heard(RunSentences(b, k, sents, j, synth).captions) == Heard(b.captions) + Voiced(k, sents, j, synth)
    decreases |sents| - j
  {
    if j == |sents| {
      assert Heard(b.captions) + [] == Heard(b.captions);
    } else {
      var o := synth(k, j + 1);
      var step := SentenceStep(b, sents[j], j + 1, |sents|, o);
      var said := if !IsBlank(sents[j]) && o.Some? then [Utterance(sents[j], o.value.ms)] else [];
      var rest := Voiced(k, sents, j + 1, synth);
      calc {
        Heard(RunSentences(b, k, sents, j, synth).captions);
      == { RunSentencesUnfold(b, k, sents, j, synth); }
        Heard(RunSentences(step, k, sents, j + 1, synth).captions);
      == { RunSentencesHeard(step, k, sents, j + 1, synth); }
        Heard(step.captions) + rest;
      == { SentenceStepSays(b, sents[j], j + 1, |sents|, o); }
        Heard(b.captions) + said + rest;
      ==
        Heard(b.captions) + (said + rest);
      }
    }
  }

  /** The sentence loop moves the clock, and the audio with it, by the total
      clip length plus one pause per voiced sentence that is not the last. */
  lemma {:induction false} RunSentencesClock(b: Build, k: nat, sents: seq<string>, j: nat, synth: Oracle)
    requires j <= |sents|
    ensures var r := RunSentences(b, k, sents, j, synth);
      && r.clock == b.clock + TotalMs(Voiced(k, sents, j, synth)) + SentencePause * Pauses(k, sents, j, synth)
      && r.audio - b.audio == r.clock - b.clock
    decreases |sents| - j
  {
    if j < |sents| {
      var o := synth(k, j + 1);
      var step := SentenceStep(b, sents[j], j + 1, |sents|, o);
      var said := if !IsBlank(sents[j]) && o.Some? then [Utterance(sents[j], o.value.ms)] else [];
      var rest := Voiced(k, sents, j + 1, synth);
      var r := RunSentences(b, k, sents, j, synth);
      assert r == RunSentences(step, k, sents, j + 1, synth) by {
        RunSentencesUnfold(b, k, sents, j, synth);
      }
      assert step.clock == b.clock + TotalMs(said) + (if said != [] && j + 1 < |sents| && o.value.removed then SentencePause else 0)
        && step.audio - b.audio == step.clock - b.clock by {
        SentenceStepSays(b, sents[j], j + 1, |sents|, o);
      }
      assert r.clock == step.clock + TotalMs(rest) + SentencePause * Pauses(k, sents, j + 1, synth)
        && r.audio - step.audio == r.clock - step.clock by {
        RunSentencesClock(step, k, sents, j + 1, synth);
      }
      assert TotalMs(Voiced(k, sents, j, synth)) == TotalMs(said) + TotalMs(rest) by {
        assert Voiced(k, sents, j, synth) == said + rest;
        TotalMsConcat(said, rest);
      }
      assert Pauses(k, sents, j, synth) == (if said != [] && j + 1 < |sents| && o.value.removed then 1 else 0) + Pauses(k, sents, j + 1, synth);
    }
  }

  /** One section says what its sentence loop voices. */
  lemma SectionStepHeard(b: Build, parts: seq<Part>, k: nat, synth: Oracle)
    requires k < |parts|
    ensures Heard(SectionStep(b, parts, k, synth).captions) == Heard(b.captions) + SectionVoiced(parts, k, synth)
  {
    if parts[k].body.Some? {
      RunSentencesHeard(b, k, parts[k].body.value, 0, synth);
    } else {
      assert Heard(b.captions) + [] == Heard(b.captions);
    }
  }

  /** One section moves the clock, and the audio with it, by its clips, its
      sentence pauses and its gap. */
  lemma SectionStepClock(b: Build, parts: seq<Part>, k: nat, synth: Oracle)
    requires k < |parts|
    ensures var r := SectionStep(b, parts, k, synth);
      var gap := if parts[k].body.Some? && k < |parts| - 1 then SectionPause else 0;
      && r.clock == b.clock + TotalMs(SectionVoiced(parts, k, synth)) + SentencePause * SectionPauses(parts, k, synth) + gap
      && r.audio - b.audio == r.clock - b.clock
  {
    if parts[k].body.Some? {
      RunSentencesClock(b, k, parts[k].body.value, 0, synth);
    }
  }

  /** One section adds its title to the timeline when it has a body. */
  lemma SectionStepTitles(b: Build, parts: seq<Part>, k: nat, synth: Oracle)
    requires k < |parts|
    ensures SpanTitles(SectionStep(b, parts, k, synth).spans)
      == SpanTitles(b.spans) + (if parts[k].body.Some? then [parts[k].title] else [])
  {
    var r := SectionStep(b, parts, k, synth);
    if parts[k].body.Some? {
      assert r.spans[..|r.spans| - 1] == b.spans;
    } else {
      assert SpanTitles(b.spans) + [] == SpanTitles(b.spans);
    }
  }

  /** The section loop says what every processed section voices, in order. */
  lemma RunSectionsHeard(b: Build, parts: seq<Part>, k: nat, synth: Oracle)
    requires k <= |parts|
    ensures Heard(RunSections(b, parts, k, synth).captions) == Heard(b.captions) + AllVoiced(parts, k, synth)
  {
    HeardFromAll(b, parts, k, synth);
  }

  /** What the sections from `k` on say, on top of what `b` already says. */
  predicate HeardFrom(b: Build, parts: seq<Part>, k: nat, synth: Oracle)
    requires k <= |parts|
  {
    Heard(RunSections(b, parts, k, synth).captions) == Heard(b.captions) + AllVoiced(parts, k, synth)
  }

  lemma {:induction false} HeardFromAll(b: Build, parts: seq<Part>, k: nat, synth: Oracle)
    requires k <= |parts|
    ensures HeardFrom(b, parts, k, synth)
    decreases |parts| - k
  {
    if k == |parts| {
      RunSectionsHeardEnd(b, parts, k, synth);
    } else {
      HeardFromAll(SectionStep(b, parts, k, synth), parts, k + 1, synth);
      RunSectionsHeardStep(b, parts, k, synth);
    }
  }

  /** Past the last section the loop says nothing more. */
  lemma RunSectionsHeardEnd(b: Build, parts: seq<Part>, k: nat, synth: Oracle)
    requires k == |parts|
    ensures HeardFrom(b, parts, k, synth)
  {
    AppendNil(Heard(b.captions));
  }

  /** One turn of the section loop, given what the rest of the loop says. */
  lemma RunSectionsHeardStep(b: Build, parts: seq<Part>, k: nat, synth: Oracle)
    requires k < |parts|
    requires HeardFrom(SectionStep(b, parts, k, synth), parts, k + 1, synth)
    ensures HeardFrom(b, parts, k, synth)
  {
    var step := SectionStep(b, parts, k, synth);
    var here, rest := SectionVoiced(parts, k, synth), AllVoiced(parts, k + 1, synth);
    RunSectionsUnfold(b, parts, k, synth);
    SectionStepHeard(b, parts, k, synth);
    AppendAssoc(Heard(b.captions), here, rest);
  }

  lemma AppendAssoc<T>(a: seq<T>, b: seq<T>, c: seq<T>)
    ensures a + b + c == a + (b + c)
  {
  }

  lemma AppendNil<T>(a: seq<T>)
    ensures a + [] == a
  {
  }

  /** The timeline gains one entry per processed section, in order, with
      its title. */
  lemma {:induction false} RunSectionsTitles(b: Build, parts: seq<Part>, k: nat, synth: Oracle)
    requires k <= |parts|
    ensures SpanTitles(RunSections(b, parts, k, synth).spans) == SpanTitles(b.spans) + Titles(parts, k)
    decreases |parts| - k
  {
    if k == |parts| {
      assert SpanTitles(b.spans) + [] == SpanTitles(b.spans);
    } else {
      var step := SectionStep(b, parts, k, synth);
      var named := if parts[k].body.Some? then [parts[k].title] else [];
      assert RunSections(b, parts, k, synth) == RunSections(step, parts, k + 1, synth);
      assert Titles(parts, k) == named + Titles(parts, k + 1);
      SectionStepTitles(b, parts, k, synth);
      RunSectionsTitles(step, parts, k + 1, synth);
      assert SpanTitles(b.spans) + named + Titles(parts, k + 1)
        == SpanTitles(b.spans) + (named + Titles(parts, k + 1));
    }
  }

  /** The section loop moves the clock, and the audio with it, by the total
      clip length plus 300 ms per sentence pause and 1000 ms per section gap. */
  lemma {:induction false} RunSectionsClock(b: Build, parts: seq<Part>, k: nat, synth: Oracle)
    requires k <= |parts|
    ensures var r := RunSections(b, parts, k, synth);
      && r.clock == b.clock + TotalMs(AllVoiced(parts, k, synth))
         + SentencePause * AllPauses(parts, k, synth) + SectionPause * Gaps(parts, k)
      && r.audio - b.audio == r.clock - b.clock
    decreases |parts| - k
  {
    if k < |parts| {
      var step := SectionStep(b, parts, k, synth);
      var here := SectionVoiced(parts, k, synth);
      var gap := if parts[k].body.Some? && k < |parts| - 1 then SectionPause else 0;
      var rest := AllVoiced(parts, k + 1, synth);
      assert Gaps(parts, k) == (if gap == 0 then 0 else 1) + Gaps(parts, k + 1);
      SectionStepClock(b, parts, k, synth);
      RunSectionsClock(step, parts, k + 1, synth);
      TotalMsConcat(here, rest);
    }
  }

  /** The final clock, and the merged audio length, is the sum of the
      voiced clips plus every inserted silence; the captions say the voiced
      sentences in source order; the timeline names the processed sections
      in source order. */
  lemma NarrateSays(markdown: string, synth: Oracle)
    ensures var b := Narrate(markdown, synth);
      var parts := Plan(markdown);
      var said := AllVoiced(parts, 0, synth);
      && Heard(b.captions) == said
      && b.clock == TotalMs(said) + SentencePause * AllPauses(parts, 0, synth) + SectionPause * Gaps(parts, 0)
      && b.audio == b.clock
      && SpanTitles(b.spans) == Titles(parts, 0)
  {
    var parts := Plan(markdown);
    RunSectionsHeard(Initial, parts, 0, synth);
    RunSectionsTitles(Initial, parts, 0, synth);
    RunSectionsClock(Initial, parts, 0, synth);
    assert [] + AllVoiced(parts, 0, synth) == AllVoiced(parts, 0, synth);
    assert [] + Titles(parts, 0) == Titles(parts, 0);
  }

  /** When the backend fails for every sentence of a section, the sentence
      loop leaves the state exactly as it found it. */
  lemma {:induction false} SilentSectionChangesNothing(b: Build, k: nat, sents: seq<string>, j: nat, synth: Oracle)
    requires j <= |sents|
    requires forall i | j < i <= |sents| :: synth(k, i).None?
    ensures RunSentences(b, k, sents, j, synth) == b
    decreases |sents| - j
  {
    if j < |sents| {
      SilentSectionChangesNothing(b, k, sents, j + 1, synth);
    }
  }

  /** The pause is decided by the sentence's position, not by whether a
      later sentence is voiced: when the last sentence of a section fails,
      the pause after the one before it stays. */
  lemma PauseBeforeFailedLast(b: Build, k: nat, s1: string, s2: string, d: nat, synth: Oracle)
    requires !IsBlank(s1) && !IsBlank(s2)
    requires synth(k, 1) == Some(Clip(d, true)) && synth(k, 2) == None
    ensures RunSentences(b, k, [s1, s2], 0, synth).clock == b.clock + d + SentencePause
  {
    var sents := [s1, s2];
    var b1 := SentenceStep(b, s1, 1, 2, Some(Clip(d, true)));
    assert RunSentences(b, k, sents, 0, synth) == RunSentences(b1, k, sents, 1, synth);
    assert RunSentences(b1, k, sents, 1, synth) == RunSentences(b1, k, sents, 2, synth);
  }

  /** A temporary file that cannot be removed costs its sentence the pause:
      the next sentence starts right where its clip ends, yet both are
      captioned. */
  lemma NoPauseAfterFailedRemoval(b: Build, k: nat, s1: string, s2: string, d: nat, e: nat, synth: Oracle)
    requires Numbered(b) && !IsBlank(s1) && !IsBlank(s2)
    requires synth(k, 1) == Some(Clip(d, false)) && synth(k, 2) == Some(Clip(e, true))
    ensures var r := RunSentences(b, k, [s1, s2], 0, synth);
      && r.clock == b.clock + d + e
      && r.captions == b.captions + [Caption(b.next, b.clock, b.clock + d, s1), Caption(b.next + 1, b.clock + d, b.clock + d + e, s2)]
  {
    var sents := [s1, s2];
    var b1 := SentenceStep(b, s1, 1, 2, Some(Clip(d, false)));
    var b2 := SentenceStep(b1, s2, 2, 2, Some(Clip(e, true)));
    assert RunSentences(b, k, sents, 0, synth) == RunSentences(b1, k, sents, 1, synth);
    assert RunSentences(b1, k, sents, 1, synth) == RunSentences(b2, k, sents, 2, synth);
  }

  // ---------------------------------------------------------------------
  // The subtitle text and the timeline records

  /** The time line of a caption, `{start} --> {end}`. */
  function TimeRange(c: Caption): string
  {
    FormatTime(c.start) + " --> " + FormatTime(c.end)
  }

  /** `f"{n}\n{start} --> {end}\n{sentence}\n"`. */
  function RenderCaption(c: Caption): string
  {
    NatToString(c.index) + ("\n" + (TimeRange(c) + ("\n" + (c.text + "\n"))))
  }

  /** `srt_content`: the rendered captions, in order. */
  function RenderAll(caps: seq<Caption>): (r: seq<string>)
    ensures |r| == |caps|
  {
    seq(|caps|, j requires 0 <= j < |caps| => RenderCaption(caps[j]))
  }

  /** The subtitle file: the entries joined by `"\n"`, so a blank line
      separates two captions. */
  function SrtText(caps: seq<Caption>): string
  {
    Join(RenderAll(caps), "\n")
  }

  /** Reads one caption entry back: its number line, its time line and its
      text line, then nothing after the final newline. */
  function ReadCaption(block: string): Option<Caption>
  {
    var lines := Split(block, '\n');
    if |lines| != 4 || lines[3] != [] || lines[0] == [] then None
    else if exists t | 0 <= t < |lines[0]| :: !IsDigit(lines[0][t]) then None
    else
      var times := lines[1];
      if |times| != 29 || times[12..17] != " --> " || !IsStamp(times[..12]) || !IsStamp(times[17..]) then None
      else Some(Caption(ParseNat(lines[0]), ParseTime(times[..12]), ParseTime(times[17..]), lines[2]))
  }

  lemma StampHasNoNewline(t: string)
    requires IsStamp(t)
    ensures '\n' !in t
  {
  }

  /** The fields of a block whose lines are already known. */
  lemma ReadFields(block: string, num: string, t1: string, t2: string, text: string)
    requires num != [] && forall t | 0 <= t < |num| :: IsDigit(num[t])
    requires IsStamp(t1) && IsStamp(t2)
    requires Split(block, '\n') == [num, t1 + " --> " + t2, text, []]
    ensures ReadCaption(block) == Some(Caption(ParseNat(num), ParseTime(t1), ParseTime(t2), text))
  {
    var lines := Split(block, '\n');
    assert lines[0] == num && lines[2] == text && lines[3] == [];
    var times := lines[1];
    assert times[..12] == t1 && times[12..17] == " --> " && times[17..] == t2;
  }

  /** The lines of a rendered block. */
  lemma SplitBlock(num: string, times: string, text: string)
    requires '\n' !in num && '\n' !in times && '\n' !in text
    ensures Split(num + ("\n" + (times + ("\n" + (text + "\n")))), '\n') == [num, times, text, []]
  {
    var r2 := text + "\n";
    var r1 := times + ("\n" + r2);
    assert Split(r2, '\n') == [text, []] by {
      assert r2 == text + ("\n" + []);
      SplitCons(text, [], '\n');
      assert Split([], '\n') == [[]];
    }
    assert Split(r1, '\n') == [times, text, []] by {
      SplitCons(times, r2, '\n');
    }
    assert Split(num + ("\n" + r1), '\n') == [num] + [times, text, []] by {
      SplitCons(num, r1, '\n');
    }
    Cons4(num, times, text);
  }

  lemma Cons4(num: string, times: string, text: string)
    ensures [num] + [times, text, []] == [num, times, text, []]
  {
    var a := [num] + [times, text, []];
    assert a[0] == num && a[1] == times && a[2] == text && a[3] == [];
  }

  lemma ReadLines(num: string, t1: string, t2: string, text: string)
    requires num != [] && (forall t | 0 <= t < |num| :: IsDigit(num[t]))
    requires IsStamp(t1) && IsStamp(t2) && '\n' !in text
    ensures var times := t1 + " --> " + t2;
      ReadCaption(num + ("\n" + (times + ("\n" + (text + "\n")))))
        == Some(Caption(ParseNat(num), ParseTime(t1), ParseTime(t2), text))
  {
    var times := t1 + " --> " + t2;
    var block := num + ("\n" + (times + ("\n" + (text + "\n"))));
    DigitsHaveNoNewline(num);
    TimesHaveNoNewline(t1, t2);
    SplitBlock(num, times, text);
    ReadFields(block, num, t1, t2, text);
  }

  lemma DigitsHaveNoNewline(num: string)
    requires forall t | 0 <= t < |num| :: IsDigit(num[t])
    ensures '\n' !in num
  {
  }

  lemma TimesHaveNoNewline(t1: string, t2: string)
    requires IsStamp(t1) && IsStamp(t2)
    ensures '\n' !in t1 + " --> " + t2
  {
    StampHasNoNewline(t1);
    StampHasNoNewline(t2);
  }

  /** A caption whose text is one line reads back with its number and text
      intact and its times as the time of day. */
  lemma ReadRenderCaption(c: Caption)
    requires '\n' !in c.text
    ensures ReadCaption(RenderCaption(c)) == Some(Caption(c.index, c.start % MsPerDay, c.end % MsPerDay, c.text))
  {
    ReadLines(NatToString(c.index), FormatTime(c.start), FormatTime(c.end), c.text);
    ParseNatToString(c.index);
    ParseFormatTime(c.start);
    ParseFormatTime(c.end);
  }

  /** One entry of the timeline file: `{"title", "start_seconds", "end_seconds"}`,
      the times written by `format_time`. */
  datatype Record = Record(title: string, startSeconds: string, endSeconds: string)

  function Records(spans: seq<Span>): (r: seq<Record>)
    ensures |r| == |spans|
  {
    if spans == [] then []
    else
      var s := spans[|spans| - 1];
      Records(spans[..|spans| - 1]) + [Record(s.title, FormatTime(s.start), FormatTime(s.end))]
  }

  // ---------------------------------------------------------------------
  // The loops as written

  lemma SentenceStepSilent(b: Build, text: string, i: nat, n: nat, outcome: Option<Clip>)
    requires IsBlank(text) || outcome.None?
    ensures SentenceStep(b, text, i, n, outcome) == b
  {
  }

  lemma SentenceStepVoiced(b: Build, text: string, i: nat, n: nat, clip: Clip, r: Build)
    requires !IsBlank(text)
    requires var pause := if i < n && clip.removed then SentencePause else 0;
      && r.clock == b.clock + clip.ms + pause && r.audio == b.audio + clip.ms + pause
      && r.next == b.next + 1 && r.spans == b.spans
      && r.captions == b.captions + [Caption(b.next, b.clock, b.clock + clip.ms, text)]
    ensures SentenceStep(b, text, i, n, Some(clip)) == r
  {
  }

  /** One turn of the sentence loop: sentence `i` of `n`, whose synthesis
      gave `outcome`. */
  method SpeakSentence(sentence: string, i: nat, n: nat, outcome: Option<Clip>,
                       clock: nat, next: nat, audio: nat, srt: seq<string>,
                       ghost caps: seq<Caption>, ghost spans: seq<Span>)
    returns (clock': nat, next': nat, audio': nat, srt': seq<string>, ghost caps': seq<Caption>)
    requires srt == RenderAll(caps)
    ensures srt' == RenderAll(caps')
    ensures Build(clock', next', caps', audio', spans)
      == SentenceStep(Build(clock, next, caps, audio, spans), sentence, i, n, outcome)
    ensures var r := SentenceStep(Build(clock, next, caps, audio, spans), sentence, i, n, outcome);
      clock' == r.clock && next' == r.next && audio' == r.audio && srt' == RenderAll(r.captions)
  {
    clock', next', audio', srt', caps' := clock, next, audio, srt, caps;
    ghost var b := Build(clock, next, caps, audio, spans);
    if IsBlank(sentence) || outcome.None? {
      SentenceStepSilent(b, sentence, i, n, outcome);
    } else {
      var clip := outcome.value;
      clock', next', audio', srt', caps' :=
        VoiceSentence(sentence, i, n, clip.ms, clip.removed, clock, next, audio, srt, caps);
      SentenceStepVoiced(b, sentence, i, n, clip, Build(clock', next', caps', audio', spans));
    }
  }

  /** A sentence that was synthesised: its caption from the clock to the
      clock plus its length, then, once its temporary file is removed, the
      pause unless it is the last one. */
  method VoiceSentence(sentence: string, i: nat, n: nat, duration: nat, removed: bool,
                       clock: nat, next: nat, audio: nat, srt: seq<string>, ghost caps: seq<Caption>)
    returns (clock': nat, next': nat, audio': nat, srt': seq<string>, ghost caps': seq<Caption>)
    requires srt == RenderAll(caps)
    ensures var pause := if i < n && removed then SentencePause else 0;
      && clock' == clock + duration + pause && audio' == audio + duration + pause && next' == next + 1
    ensures caps' == caps + [Caption(next, clock, clock + duration, sentence)] && srt' == RenderAll(caps')
  {
    audio' := audio + duration;
    var startTime := clock;
    var endTime := clock + duration;
    var c := Caption(next, startTime, endTime, sentence);
    assert c == Caption(next, clock, clock + duration, sentence);
    RenderAllSnoc(caps, c);
    srt' := srt + [RenderCaption(c)];
    caps' := caps + [c];
    clock' := endTime;
    next' := next + 1;
    if !removed {
      // `os.remove` raised: the handler ends the turn here
      return;
    }
    if i < n {
      audio' := audio' + SentencePause;
      clock' := clock' + SentencePause;
    }
  }

  /** The sentence loop of md2audio.py:166-227 for section `k`, on the
      variables it updates: `current_time`, `sentence_index`,
      `combined_audio` (as its length) and `srt_content`. */
  method SpeakSentences(k: nat, sentences: seq<string>, synth: Oracle,
                        clock: nat, next: nat, audio: nat, srt: seq<string>,
                        ghost caps: seq<Caption>, ghost spans: seq<Span>)
    returns (clock': nat, next': nat, audio': nat, srt': seq<string>, ghost caps': seq<Caption>)
    requires srt == RenderAll(caps)
    ensures srt' == RenderAll(caps')
    ensures Build(clock', next', caps', audio', spans)
      == RunSentences(Build(clock, next, caps, audio, spans), k, sentences, 0, synth)
    ensures var r := RunSentences(Build(clock, next, caps, audio, spans), k, sentences, 0, synth);
      clock' == r.clock && next' == r.next && audio' == r.audio && srt' == RenderAll(r.captions)
  {
    clock', next', audio', srt', caps' := clock, next, audio, srt, caps;
    ghost var goal := RunSentences(Build(clock, next, caps, audio, spans), k, sentences, 0, synth);
    var i := 0;
    while i < |sentences|
      invariant i <= |sentences|
      invariant srt' == RenderAll(caps')
      invariant RunSentences(Build(clock', next', caps', audio', spans), k, sentences, i, synth) == goal
      decreases |sentences| - i
    {
      ghost var cur := Build(clock', next', caps', audio', spans);
      RunSentencesUnfold(cur, k, sentences, i, synth);
      clock', next', audio', srt', caps' :=
        SpeakSentence(sentences[i], i + 1, |sentences|, synth(k, i + 1), clock', next', audio', srt', caps', spans);
      i := i + 1;
    }
  }

  lemma RunSentencesUnfold(b: Build, k: nat, sents: seq<string>, i: nat, synth: Oracle)
    requires i < |sents|
    ensures RunSentences(b, k, sents, i, synth)
      == RunSentences(SentenceStep(b, sents[i], i + 1, |sents|, synth(k, i + 1)), k, sents, i + 1, synth)
  {
  }

  lemma RunSectionsUnfold(b: Build, parts: seq<Part>, k: nat, synth: Oracle)
    requires k < |parts|
    ensures RunSections(b, parts, k, synth) == RunSections(SectionStep(b, parts, k, synth), parts, k + 1, synth)
  {
  }

  /** The turn of the section loop for a section with a body, step by step. */
  lemma SectionStepOf(b: Build, parts: seq<Part>, k: nat, synth: Oracle, sents: seq<string>, ran: Build, gap: nat, span: Span)
    requires k < |parts| && parts[k].body == Some(sents)
    requires ran == RunSentences(b, k, sents, 0, synth)
    requires gap == if k < |parts| - 1 then SectionPause else 0
    requires span == Span(parts[k].title, b.clock, ran.clock + gap)
    ensures SectionStep(b, parts, k, synth) == Build(ran.clock + gap, ran.next, ran.captions, ran.audio + gap, ran.spans + [span])
  {
  }

  lemma SectionStepSkip(b: Build, parts: seq<Part>, k: nat, synth: Oracle)
    requires k < |parts| && parts[k].body == None
    ensures SectionStep(b, parts, k, synth) == b
  {
  }

  /** The part of a section, field by field. */
  lemma PartOfFields(section: string)
    ensures var sec := SplitSection(section);
      && PartOf(section).title == sec.title
      && PartOf(section).body == if sec.content == [] then None else Some(SentencesOf(sec.content))
  {
  }

  lemma RecordsSnoc(spans: seq<Span>, s: Span)
    ensures Records(spans + [s]) == Records(spans) + [Record(s.title, FormatTime(s.start), FormatTime(s.end))]
  {
    assert (spans + [s])[..|spans|] == spans;
  }

  lemma RenderAllSnoc(caps: seq<Caption>, c: Caption)
    ensures RenderAll(caps + [c]) == RenderAll(caps) + [RenderCaption(c)]
  {
    var r, r' := RenderAll(caps), RenderAll(caps + [c]);
    assert forall j | 0 <= j < |caps| :: r'[j] == r[j];
  }

  /** One turn of the section loop of md2audio.py:117-252 for section `k`
      of `count`: a section without body is skipped; otherwise its
      sentences are spoken, a gap follows unless it is the last section, and
      its timeline record is appended. */
  method SpeakSection(ghost parts: seq<Part>, k: nat, count: nat, section: string, synth: Oracle,
                      clock: nat, next: nat, audio: nat, srt: seq<string>, timeline: seq<Record>,
                      ghost caps: seq<Caption>, ghost spans: seq<Span>)
    returns (clock': nat, next': nat, audio': nat, srt': seq<string>, timeline': seq<Record>,
             ghost caps': seq<Caption>, ghost spans': seq<Span>)
    requires k < count == |parts|
    requires var sec := SplitSection(section);
      && parts[k].title == sec.title
      && parts[k].body == if sec.content == [] then None else Some(SentencesOf(sec.content))
    requires srt == RenderAll(caps) && timeline == Records(spans)
    ensures srt' == RenderAll(caps') && timeline' == Records(spans')
    ensures Build(clock', next', caps', audio', spans')
      == SectionStep(Build(clock, next, caps, audio, spans), parts, k, synth)
    ensures var r := SectionStep(Build(clock, next, caps, audio, spans), parts, k, synth);
      && clock' == r.clock && next' == r.next && audio' == r.audio
      && srt' == RenderAll(r.captions) && timeline' == Records(r.spans)
  {
    clock', next', audio', srt', timeline', caps', spans' := clock, next, audio, srt, timeline, caps, spans;
    ghost var before := Build(clock, next, caps, audio, spans);
    var sec := SplitSection(section);
    if sec.content == [] {
      SectionStepSkip(before, parts, k, synth);
      return;
    }
    var sentences := Segment.SplitSentences(Normalize.Preprocess(sec.content));
    clock', next', audio', srt', timeline', caps', spans' :=
      SpeakPart(parts, k, count, sec.title, sentences, synth, clock, next, audio, srt, timeline, caps, spans);
  }

  /** The turn of the section loop for a section with sentences to speak:
      the start time, the sentence loop, then the pause and the record. */
  /** A processed section's turn, from the state its sentence loop leaves
      and the gap and record that close it. */
  lemma SectionStepFrom(b: Build, parts: seq<Part>, k: nat, synth: Oracle, title: string, sents: seq<string>,
                        ranClock: nat, next: nat, caps: seq<Caption>, ranAudio: nat,
                        clock: nat, audio: nat, spans: seq<Span>)
    requires k < |parts| && parts[k] == Part(title, Some(sents))
    requires Build(ranClock, next, caps, ranAudio, b.spans) == RunSentences(b, k, sents, 0, synth)
    requires var gap := if k == |parts| - 1 then 0 else SectionPause;
      clock == ranClock + gap && audio == ranAudio + gap
    requires spans == b.spans + [Span(title, b.clock, clock)]
    ensures SectionStep(b, parts, k, synth) == Build(clock, next, caps, audio, spans)
  {
    var ran := Build(ranClock, next, caps, ranAudio, b.spans);
    var gap := if k < |parts| - 1 then SectionPause else 0;
    SectionStepOf(b, parts, k, synth, sents, ran, gap, Span(title, b.clock, clock));
  }

  method SpeakPart(ghost parts: seq<Part>, k: nat, count: nat, title: string, sentences: seq<string>, synth: Oracle,
                   clock: nat, next: nat, audio: nat, srt: seq<string>, timeline: seq<Record>,
                   ghost caps: seq<Caption>, ghost spans: seq<Span>)
    returns (clock': nat, next': nat, audio': nat, srt': seq<string>, timeline': seq<Record>,
             ghost caps': seq<Caption>, ghost spans': seq<Span>)
    requires k < count == |parts| && parts[k] == Part(title, Some(sentences))
    requires srt == RenderAll(caps) && timeline == Records(spans)
    ensures srt' == RenderAll(caps') && timeline' == Records(spans')
    ensures Build(clock', next', caps', audio', spans')
      == SectionStep(Build(clock, next, caps, audio, spans), parts, k, synth)
    ensures var r := SectionStep(Build(clock, next, caps, audio, spans), parts, k, synth);
      && clock' == r.clock && next' == r.next && audio' == r.audio
      && srt' == RenderAll(r.captions) && timeline' == Records(r.spans)
  {
    var sectionStartTime := FormatTime(clock);
    var ranClock, ranAudio;
    ranClock, next', ranAudio, srt', caps' := SpeakSentences(k, sentences, synth, clock, next, audio, srt, caps, spans);
    clock', audio', timeline', spans' := CloseSection(title, k == count - 1, clock, sectionStartTime, ranClock, ranAudio, timeline, spans);
    SectionStepFrom(Build(clock, next, caps, audio, spans), parts, k, synth, title, sentences,
                    ranClock, next', caps', ranAudio, clock', audio', spans');
  }

  /** The end of a section's turn (md2audio.py:228-252): the pause after
      every section but the last, then the section's timeline record from
      its start to the clock after the pause. */
  method CloseSection(title: string, last: bool, start: nat, startText: string,
                      clock: nat, audio: nat, timeline: seq<Record>, ghost spans: seq<Span>)
    returns (clock': nat, audio': nat, timeline': seq<Record>, ghost spans': seq<Span>)
    requires startText == FormatTime(start) && timeline == Records(spans)
    ensures var gap := if last then 0 else SectionPause;
      clock' == clock + gap && audio' == audio + gap
    ensures spans' == spans + [Span(title, start, clock')] && timeline' == Records(spans')
  {
    clock', audio' := clock, audio;
    if !last {
      audio' := audio' + SectionPause;
      clock' := clock' + SectionPause;
    }
    var sectionEndTime;
    if last {
      sectionEndTime := FormatTime(clock');
    } else {
      sectionEndTime := FormatTime(clock');
    }
    RecordsSnoc(spans, Span(title, start, clock'));
    timeline' := timeline + [Record(title, startText, sectionEndTime)];
    spans' := spans + [Span(title, start, clock')];
  }

  /** What the loop is given for each section: a one-line stripped title,
      and, unless the body is empty, sentences that are stripped, end with
      their only mark and hold no hyphen and no straight double quote. */
  lemma PlanShape(markdown: string, k: nat)
    requires k < |Plan(markdown)|
    ensures var p := Plan(markdown)[k];
      IsStripped(p.title) && '\n' !in p.title
    ensures var p := Plan(markdown)[k];
      p.body.Some? ==> forall j | 0 <= j < |p.body.value| ::
        var t := p.body.value[j];
        IsStripped(t) && Segment.IsSentence(t) && '-' !in t && '"' !in t
  {
    var section := FindSections(markdown)[k];
    PlanPart(markdown, k);
    PartOfFields(section);
    SplitSectionShape(section);
    var sec := SplitSection(section);
    if sec.content != [] {
      var text := Normalize.Preprocess(sec.content);
      Normalize.PreprocessShape(sec.content);
      Segment.SentencesShape(text);
      Segment.SentencesAvoid(text, '-');
      Segment.SentencesAvoid(text, '"');
    }
  }

  lemma PlanPart(markdown: string, k: nat)
    requires k < |FindSections(markdown)|
    ensures Plan(markdown)[k] == PartOf(FindSections(markdown)[k])
  {
  }

  /** `parse_markdown_and_generate_audio` without its I/O: returns the
      subtitle text, the merged audio length, the timeline records and the
      number of captions (`sentence_index - 1`). */
  method NarrateMarkdown(markdown: string, synth: Oracle)
    returns (srt: string, audioMs: nat, timeline: seq<Record>, spoken: nat)
    ensures var b := Narrate(markdown, synth);
      && srt == SrtText(b.captions) && audioMs == b.audio && timeline == Records(b.spans)
      && spoken == |b.captions|
  {
    var sections := FindSections(markdown);
    ghost var parts := Plan(markdown);
    var srtContent: seq<string> := [];
    var currentTime: nat := 0;
    var sentenceIndex: nat := 1;
    var combinedAudio: nat := 0;
    var timelineData: seq<Record> := [];
    ghost var caps: seq<Caption> := [];
    ghost var spans: seq<Span> := [];
    var k := 0;
    while k < |sections|
      invariant k <= |sections| == |parts|
      invariant srtContent == RenderAll(caps) && timelineData == Records(spans)
      invariant RunSections(Build(currentTime, sentenceIndex, caps, combinedAudio, spans), parts, k, synth)
        == RunSections(Initial, parts, 0, synth)
    {
      PlanPart(markdown, k);
      PartOfFields(sections[k]);
      currentTime, sentenceIndex, combinedAudio, srtContent, timelineData, caps, spans :=
        SpeakSection(parts, k, |sections|, sections[k], synth,
                     currentTime, sentenceIndex, combinedAudio, srtContent, timelineData, caps, spans);
      k := k + 1;
    }
    assert Narrate(markdown, synth) == RunSections(Initial, parts, 0, synth);
    NarrateValid(markdown, synth);
    srt := Join(srtContent, "\n");
    audioMs := combinedAudio;
    timeline := timelineData;
    spoken := sentenceIndex - 1;
  }
}
