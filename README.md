# md2video text pipeline, modelled in Dafny

This project models two parts of the md2video pipeline.

- **Narration** (`processors/md2audio.py`): a Markdown file becomes speech, subtitles and a timeline.
  - `##` sections are found and split into a title and a body.
  - The body is cleaned (`preprocess_text`) and cut into sentences.
  - Every sentence is sent to a speech backend.
  - One millisecond clock runs over all sentences. Each voiced sentence gets a numbered SRT caption (times written by `format_time`). 300 ms of silence follow each sentence but the last of its section, and 1000 ms follow each section but the last. Every processed section leaves a timeline record.
- **News pages** (`processors/md2html.py`): a news file becomes one HTML page per item, plus an index.
  - `parse_markdown_content` deletes horizontal rules, adds a heading when needed and cuts the file into items.
  - For each item, the language model's answer is cleaned of code fences and tested for HTML. Otherwise a fallback page is built from the item.
  - Each item gets a title and a path, and the index page links them all.

Modules, one per concern:

- `Text`: the Python string built-ins used (`isspace`/`\s`, `strip`, `split`, `join`, `replace`, decimal rendering).
- `SrtTime`: `format_time`.
- `Normalize`: `preprocess_text`.
- `Filename`: `sanitize_filename`.
- `Sections`: the section `findall` and the title/body split.
- `Segment`: `re.split` on sentence marks and the recombination loop.
- `Timeline`: the clock, caption and timeline loop, written as a fold and as the loops of the source.
- `News`: `parse_markdown_content`.
- `Pages`: the fence clean-up, the fallback page, the titles, the per-item loop of `main` and `create_index_page`.

How the regular expressions are modelled:

- Each one is an explicit left-to-right scanner.
- Lazy groups take the shortest body for which the rest of the pattern succeeds.
- `.` excludes the newline unless the pattern uses DOTALL.

The speech backend and the language model are oracles. They are passed in as parameters.

Consequences of the code that the model states and proves:

- **Hours wrap.** `format_time` uses `timedelta.seconds`, so the hour field wraps every 24 hours (`SrtTime.FormatTimeDropsDays`).
- **The first heading is a section.** The section `findall` is not anchored to the start of a line, so the first heading is a section like the others.
- **Cleaning is not idempotent.** A link nested in a link label loses one level per pass (`Normalize.PreprocessNotIdempotent`).
- **Images are not removed.** Links are rewritten before images are deleted, so `![alt](url)` comes out as `!alt` (`Normalize.ImageBecomesBangAlt`).
- **A failed last sentence keeps the pause before it.** The 300 ms pause depends on a sentence's position, not on whether the next sentence is voiced (`Timeline.PauseBeforeFailedLast`).
- **A failed file removal loses the pause.** When `os.remove` raises after a sentence was captioned, that sentence's pause is lost (`Timeline.NoPauseAfterFailedRemoval`).

## Model

| member | source | states |
|---|---|---|
| SrtTime.FormatTime | processors/md2audio.py:30-35 | the result is a well-formed `HH:MM:SS,mmm` stamp of two-digit fields and a three-digit millisecond field |
| SrtTime.ParseFormatTime | processors/md2audio.py:30-35 | the printed fields read back to the input modulo one day, and to the input itself below 24 hours |
| SrtTime.FormatTimeDropsDays | processors/md2audio.py:32-33 | two times a whole number of days apart print the same stamp (the hour field wraps at 24) |
| SrtTime.FormatTimeMillis | processors/md2audio.py:35 | the millisecond field is `ms % 1000` for every input |
| SrtTime.FormatTimeInjective | processors/md2audio.py:30-35 | two distinct times below one day never print alike |
| Normalize.MatchLink | processors/md2audio.py:47 | a link match at the front exists exactly when the pattern `\[(.*?)\][ ]*\(.*?\)` can match there; the label closes at the leftmost `]` that allows a match, and the end is the one that match gives |
| Normalize.SubLinksLink | processors/md2audio.py:47 | a link `[name](url)` becomes its label, whatever text follows |
| Normalize.SubLinksPlainPrefix | processors/md2audio.py:47 | text without `[` is copied through the link rewrite unchanged, and the rest of the text is rewritten after it |
| Normalize.ImageBecomesBangAlt | processors/md2audio.py:47-54 | because links are rewritten first, a Markdown image `![alt](url)` comes out as `!alt` rather than being deleted |
| Normalize.FullStops | processors/md2audio.py:64 | same length; a period becomes `。` exactly where it is last or followed by whitespace, every other character is kept |
| Normalize.PreprocessShape | processors/md2audio.py:57-67 | the cleaned text is stripped, its only whitespace is single ASCII spaces, and it holds no hyphen, no straight double quote and no period at the end or before whitespace |
| Normalize.PreprocessKeepsPlainText | processors/md2audio.py:41-71 | text with no `[`, `-`, `"` or `.`, single-spaced and stripped, is returned unchanged |
| Normalize.PreprocessNotIdempotent | processors/md2audio.py:41-71 | cleaning `[[a](b)](c)` twice gives a different text from cleaning it once |
| Filename.Sanitize | processors/md2audio.py:73-77 | same length; every character of the class `["'\s\\/:*?"<>\|]` becomes `_` and every other character is kept |
| Filename.SanitizeIsSafe | processors/md2audio.py:76 | no unsafe character is left, and the safe ones are untouched |
| Filename.SanitizeIdempotent | processors/md2audio.py:76 | sanitising a sanitised name changes nothing |
| Filename.SanitizeKeepsSafeName | processors/md2audio.py:76 | a name without unsafe characters is its own sanitised form |
| Sections.FindSections | processors/md2audio.py:112 | no section found contains `\n##`, and none starts with whitespace |
| Sections.DocumentSections | processors/md2audio.py:112 | a document of `## item` lines splits back into exactly its items, in order, the first heading included |
| Sections.SkipPreamble | processors/md2audio.py:112 | text before the first `#` contributes no section |
| Sections.SplitSectionShape | processors/md2audio.py:128-133 | the title is the stripped text up to the first newline of the stripped section and the body the stripped rest; both are stripped, the title holds no newline, and a section without newline is all title and no body |
| Segment.SplitMarks | processors/md2audio.py:144 | an odd number of parts: mark-free fragments at even indices, single sentence marks at odd ones |
| Segment.SplitMarksConcat | processors/md2audio.py:144 | the parts of the split concatenate back to the input |
| Segment.SplitSentences | processors/md2audio.py:144-161 | the recombination loop and filter give exactly `Sentences(text)`, an independent definition read off the text; every sentence is stripped, non-empty and ends with its only mark |
| Segment.SentencesShape | processors/md2audio.py:147-161 | no recombined piece is dropped by the filter; every sentence is stripped and ends with exactly one mark |
| Segment.SentenceCount | processors/md2audio.py:147-161 | one sentence per mark in the text, plus one when a non-blank fragment without a mark ends it |
| Segment.SentencesKeepText | processors/md2audio.py:147-161 | the sentences, read in order, are the text apart from whitespace, with `。` added after a trailing fragment that had no mark |
| Segment.SentencesAvoid | processors/md2audio.py:147-161 | a character that is neither in the text nor `。` is in no sentence |
| Timeline.Plan | processors/md2audio.py:112-140 | one part per section found, in order |
| Timeline.PlanShape | processors/md2audio.py:124-161 | every part handed to the loop has a stripped one-line title; when its body is not empty, each of its sentences is stripped, ends with its only mark, and holds no hyphen and no straight double quote |
| Timeline.VoiceSentence | processors/md2audio.py:203-231 | a voiced sentence adds one caption from the clock to the clock plus its length, with the next number; then the pause, unless it is the last sentence or its file could not be removed; clock and audio grow alike |
| Timeline.SpeakSentences | processors/md2audio.py:168-231 | the sentence loop leaves exactly the state of the fold `RunSentences`, with the subtitle entries rendering the captions |
| Timeline.CloseSection | processors/md2audio.py:233-252 | the 1000 ms gap after every section but the last, then one record from the section's start to the clock after the gap |
| Timeline.SpeakSection | processors/md2audio.py:124-252 | the state after a section's turn, including the skip of a section with an empty body, is that of the fold `SectionStep`, with the subtitle entries and the timeline records rendering the captions and spans |
| Timeline.NarrateMarkdown | processors/md2audio.py:89-283 | the subtitle text, the merged audio length, the timeline records and the sentence count are those of the fold `Narrate` over the whole document |
| Timeline.NarrateValid | processors/md2audio.py:117-252 | whatever the backend does: captions are numbered 1, 2, 3, … in order, never overlap and never run backwards; the audio is exactly as long as the clock; the timeline entries tile the clock from 0 without gap or overlap |
| Timeline.NarrateSays | processors/md2audio.py:124-252 | the captions say exactly the voiced sentences with their clip lengths, in source order; the final clock is the clips plus 300 ms per paused sentence plus 1000 ms per gap; the timeline names the processed sections in order |
| Timeline.SilentSectionChangesNothing | processors/md2audio.py:185-201 | when the backend fails on every sentence of a section, the sentence loop changes nothing |
| Timeline.PauseBeforeFailedLast | processors/md2audio.py:220-227 | when the last sentence of a section fails, the sentence before it keeps its 300 ms pause |
| Timeline.NoPauseAfterFailedRemoval | processors/md2audio.py:213-231 | when removing a sentence's file raises, the sentence is still captioned but the next one starts where its clip ends |
| Timeline.ReadRenderCaption | processors/md2audio.py:210 | a rendered caption reads back to its number, its text and its times of day |
| Timeline.RecordsSnoc | processors/md2audio.py:248-252 | a new timeline entry adds one record with its title and its start and end written by `format_time` |
| News.DropRulesClean | processors/md2html.py:53 | no run of three dashes is left, and a leading run shorter than three is kept |
| News.DropRulesKeepsText | processors/md2html.py:53 | only dashes are deleted: every other character stays, in order |
| News.DropRulesPrefix | processors/md2html.py:53 | text without a rule that does not end in a dash comes through unchanged, dashes included |
| News.DropRulesRule | processors/md2html.py:53 | a run of three or more dashes is deleted whole |
| News.DropRulesPlain | processors/md2html.py:53 | text without a rule is left alone |
| News.JoinSplitPairs | processors/md2html.py:57 | joining the pieces of `split('##')` with `##` gives back the text |
| News.AddHeadingSplice | processors/md2html.py:55-57 | a file that does not start with `##` but contains one gets the banner heading, the text before the first `##`, a newline, and the rest from that `##` on |
| News.AddHeadingPlain | processors/md2html.py:58-59 | a file without `##` is put under the banner heading |
| News.AddHeadingNoRule | processors/md2html.py:55-59 | adding the heading brings in no rule |
| News.SplitHeadingsWeave | processors/md2html.py:61 | the split loses nothing: the pieces, with the matched `##` and whitespace markers put back, give back the text |
| News.ParseItems | processors/md2html.py:50-62 | every item is non-empty and stripped, holds no `---` and has no inner line starting with `##` and whitespace |
| News.ParsePlain | processors/md2html.py:50-62 | a file without `#` and `-` is one item: the banner title and the text |
| Pages.AcceptHtml | processors/md2html.py:121-135 | an accepted answer starts like an HTML document and is stripped |
| Pages.UnfenceFenced | processors/md2html.py:123-129 | an answer wrapped in a fence loses exactly the fence |
| Pages.FencedPageRefused | processors/md2html.py:123-131 | an answer fenced on lines of its own is refused |
| Pages.FencedPageAccepted | processors/md2html.py:123-135 | with a strip before the test, a fenced HTML document is accepted unchanged |
| Pages.AcceptHtmlFixedExtends | processors/md2html.py:121-135 | the strip-first test accepts every answer the source accepts, with the same page; it accepts more only where the unfenced text starts with whitespace |
| Pages.DefaultTitle | processors/md2html.py:142-143 | the fallback title is stripped, one line, and holds no `##` |
| Pages.DefaultSplitsNews | processors/md2html.py:142-144 | the first line and the body give back the stripped item |
| Pages.DefaultBodyBreaks | processors/md2html.py:144-161 | the body shows the lines after the first, joined with `<br>` |
| Pages.DefaultHtmlLayout | processors/md2html.py:140-163 | the fallback page is the template with the title in the tab and the heading and the body lines joined with `<br>` |
| Pages.DefaultHtmlAccepted | processors/md2html.py:131-163 | the fallback page passes the clean-up and the HTML test unchanged |
| Pages.NewsHtml | processors/md2html.py:104-138 | the page saved for an item always starts like an HTML document |
| Pages.FencedPageFallsBack | processors/md2html.py:123-133 | as written, an item whose answer is fenced on lines of its own gets the fallback page |
| Pages.NewsHtmlFixed | processors/md2html.py:104-138 | with the strip-first test, the saved page still always starts like an HTML document |
| Pages.FencedPageSaved | processors/md2html.py:123-135 | with the strip-first test, the fenced document is the page saved |
| Pages.NewsHtmlFixedExtends | processors/md2html.py:121-135 | the strip-first test saves the same page wherever the source keeps the model's answer |
| Pages.TitleMatch | processors/md2html.py:207 | a match exists exactly when the item starts with `## ` and a character other than a newline; the group is the non-empty rest of that first line |
| Pages.PageTitle | processors/md2html.py:207-208 | every recorded title starts with `## ` |
| Pages.IndexTitle | processors/md2html.py:93 | the link text is non-empty, stripped and holds no `##` |
| Pages.IndexTitleOfHeading | processors/md2html.py:93 | cleaning `## x` gives `x` stripped, or the item's label when `x` is blank |
| Pages.IndexTitleOfPageTitle | processors/md2html.py:207-208 | the index shows an item's own heading when it has one without `#`, and its label `新闻 {i+1}` otherwise |
| Pages.BuildPages | processors/md2html.py:203-215 | one title, one path and one page per item, in order |
| Pages.TitlesAt | processors/md2html.py:207-209 | item `k` is recorded with its own title |
| Pages.PathsAt | processors/md2html.py:213-215 | item `k` is saved as `news_{k+1}.html` |
| Pages.PagesAt | processors/md2html.py:212 | item `k` gets the page made from its own text and its own answer |
| Pages.IndexPage | processors/md2html.py:70-98 | the index is the head, one link per title and path pair up to the shorter list, and the tail |
| Pages.IndexLinksEvery | processors/md2html.py:91-94 | every pair has its link in the index, after the links of the pairs before it and before those after it |

## Left out

- Timeline.Clip: a pydub `AudioSegment` is kept only as its length in milliseconds. This assumes `len(a + b) == len(a) + len(b)` and silences of exactly 300 and 1000 ms (md2audio.py:194-237). Sample rates, channels and encoding are not modelled.
- Timeline.Oracle: one outcome per section and sentence. It covers both `generate_audio` (md2audio.py:186) and `AudioSegment.from_file` (md2audio.py:194): `None` when either raises, otherwise the clip length and whether `os.remove` (md2audio.py:217) succeeded. The speech service itself is not part of this model.
- Timeline.SpeakSentence: the removal in the read-error path (md2audio.py:199-200) is not modelled separately, because either way the turn ends with no change of state. The temporary file's name (md2audio.py:179-180) only names a file, so `Filename.Sanitize` is modelled on its own.
- Timeline.NarrateMarkdown: the main-title search (md2audio.py:97-103) is left out because its result is only logged. Also left out: the dated output directory (md2audio.py:106-109), the audio export, the SRT and JSON writes (md2audio.py:254-274), logging, and the final prints. The method returns what would be written.
- Timeline.Records: the JSON encoding of the records is not modelled; only their fields are.
- News.ParseMarkdownContent: reading the file (md2html.py:42-48), the YAML configuration, the API key and the client set-up (md2html.py:165-197) are left out.
- Pages.NewsHtml: the language-model call (md2html.py:108-121) is an `Option<string>` per item: the text of the answer, or `None` when the call raises. Model parameters, prompts, time-outs and retries are left out.
- Pages.BuildPages: writing the pages and the index to disk (md2html.py:64-68, 100-102) is left out. Paths are the file names relative to the output directory.
- SrtTime.FormatTime: times wrap every 24 hours, as `timedelta.seconds` does.
- Sections.FindSections: the first heading is a section, and headings are not anchored to the start of a line. This follows the code, which uses `re.findall` without `^`.
- Normalize.Preprocess: it is not idempotent (see `Normalize.PreprocessNotIdempotent`).
- Pages.DefaultHtml: the template at md2html.py:161 puts a backslash inside an f-string expression. That parses only on Python 3.12 or later, which is assumed here.
- Text.IsSpace: `str.strip`, `str.isspace` and `\s` use the full set of Python whitespace characters. Case folding, normalisation and encodings play no part in the modelled code.

## Findings

| source | as written | input that shows it | evidently intended | confidence | as-written member | corrected member |
|---|---|---|---|---|---|---|
| processors/md2html.py:123-131 | after `"```html"` is cut, the newline that follows it is still in front of the page when `startswith(("<!DOCTYPE", "<html"))` is tested, so the page is refused and the item gets the fallback page | an answer `"```html\n<!DOCTYPE html>…</html>\n```"` | strip the unfenced text before the test, so the fenced page is kept | not executed | Pages.FencedPageFallsBack | Pages.FencedPageSaved |
