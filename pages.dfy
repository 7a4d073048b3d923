/** The page-building helpers of processors/md2html.py: the clean-up of a
    generated page (code fences, the HTML test), the fallback page built from
    a news item, and the titles shown on each page and in the index. The
    language model is an oracle: its answer for an item is a parameter, and
    `None` stands for the exception the call can raise. */
module Pages {
  import opened Text

  // ---------------------------------------------------------------------
  // Strings of the source

  /** A stripped text keeps a prefix that neither starts nor ends with
      whitespace. */
  lemma StripKeepsPrefix(b: string, p: string)
    requires StartsWith(b, p) && p != [] && !IsSpace(p[0]) && !IsSpace(p[|p| - 1])
    ensures StartsWith(Strip(b), p)
  {
    var front, back := StripSplit(b);
    PaddedPrefix(front, Strip(b), back, p);
  }

  lemma PaddedPrefix(front: string, r: string, back: string, p: string)
    requires IsBlank(front) && IsBlank(back)
    requires StartsWith(front + r + back, p) && p != [] && !IsSpace(p[0]) && !IsSpace(p[|p| - 1])
    ensures StartsWith(r, p)
  {
    var b := front + r + back;
    assert b[0] == p[0];
    assert front == [];
    assert b == r + back;
    assert |r| >= |p|;
    assert r[..|p|] == b[..|p|];
  }

  /** Blank text around a stripped, non-empty text is what `strip` removes. */
  lemma StripPadded(front: string, y: string, back: string)
    requires IsBlank(front) && IsBlank(back) && IsStripped(y) && y != []
    ensures Strip(front + y + back) == y
  {
    var s := front + y + back;
    var i, e := |front|, |front| + |y|;
    assert s[..i] == front && s[i..e] == y && s[e..] == back;
    assert s[i] == y[0] && s[e - 1] == y[|y| - 1];
    StripExact(s, i, e);
  }

  lemma NoHashPairSlice(s: string, a: nat, b: nat)
    requires !HasHashPair(s) && a <= b <= |s|
    ensures !HasHashPair(s[a..b])
  {
    var t := s[a..b];
    forall i | 0 <= i < |t| - 1 ensures !(t[i] == '#' && t[i + 1] == '#') {
      assert t[i] == s[a + i] && t[i + 1] == s[a + i + 1];
    }
  }

  lemma StripNoHashPair(s: string)
    requires !HasHashPair(s)
    ensures !HasHashPair(Strip(s))
  {
    NoHashPairSlice(s, LeadingSpace(s), LeadingSpace(s) + |Strip(s)|);
  }

  /** `replace('##', '')` only deletes, so it adds no character. */
  lemma {:induction false} DeleteHashPairsAbsent(s: string, c: char)
    requires c !in s
    ensures c !in DeleteHashPairs(s)
    decreases |s|
  {
    if |s| >= 2 && s[0] == '#' && s[1] == '#' {
      DeleteHashPairsAbsent(s[2..], c);
    } else if s != [] {
      DeleteHashPairsAbsent(s[1..], c);
    }
  }

  // ---------------------------------------------------------------------
  // `generate_html_for_news`: cleaning the model's answer (md2html.py:121-135)

  /** The answer after its fences are cut: stripped, then a leading
      "```html" (or else "```") and a trailing "```" removed. */
  function Unfence(response: string): string
  {
    var a := Strip(response);
    var b := if StartsWith(a, "```html") then a[7..] else if StartsWith(a, "```") then a[3..] else a;
    if EndsWith(b, "```") then b[..|b| - 3] else b
  }

  /** The acceptance test: the page starts like an HTML document. */
  predicate IsHtml(h: string)
  {
    StartsWith(h, "<!DOCTYPE") || StartsWith(h, "<html")
  }

  lemma StripKeepsHtml(b: string)
    requires IsHtml(b)
    ensures IsHtml(Strip(b))
  {
    if StartsWith(b, "<!DOCTYPE") {
      StripKeepsPrefix(b, "<!DOCTYPE");
    } else {
      StripKeepsPrefix(b, "<html");
    }
  }

  /** The answer as the source accepts it: `None` sends the item to the
      fallback page. */
  function AcceptHtml(response: string): (r: Option<string>)
    ensures r.Some? ==> IsHtml(r.value) && IsStripped(r.value)
  {
    var b := Unfence(response);
    if IsHtml(b) then
      StripKeepsHtml(b);
      Some(Strip(b))
    else None
  }

  /** The acceptance test run after a final strip. */
  function AcceptHtmlFixed(response: string): (r: Option<string>)
    ensures r.Some? ==> IsHtml(r.value) && IsStripped(r.value)
  {
    var b := Strip(Unfence(response));
    if IsHtml(b) then Some(b) else None
  }

  /** A fenced page loses exactly its fences. */
  lemma UnfenceFenced(h: string)
    ensures Unfence("```html" + h + "```") == h
  {
    var a := "```html" + h + "```";
    assert IsStripped(a) by {
      assert a[0] == '`' && a[|a| - 1] == '`';
    }
    StripOfStripped(a);
    assert a[..7] == "```html";
    assert a[7..] == h + "```";
    assert (h + "```")[|h|..] == "```";
    assert (h + "```")[..|h|] == h;
  }

  /** How a language model usually fences a page: "```html" and "```" on
      lines of their own around it. */
  function FencedPage(doc: string): string
  {
    "```html" + ("\n" + doc + "\n") + "```"
  }

  lemma NewlineNotHtml(b: string)
    requires b != [] && b[0] == '\n'
    ensures !IsHtml(b)
  {
    if |b| >= 5 { assert b[..5][0] == '\n'; }
    if |b| >= 9 { assert b[..9][0] == '\n'; }
  }

  /** As written, a page fenced on lines of its own is refused: the newline
      after "```html" is still there when the page is tested. */
  lemma FencedPageRefused(doc: string)
    ensures AcceptHtml(FencedPage(doc)) == None
  {
    var b := "\n" + doc + "\n";
    UnfenceFenced(b);
    NewlineNotHtml(b);
  }

  /** With the final strip, the fenced page comes back unchanged. */
  lemma FencedPageAccepted(doc: string)
    requires IsHtml(doc) && IsStripped(doc)
    ensures AcceptHtmlFixed(FencedPage(doc)) == Some(doc)
  {
    UnfenceFenced("\n" + doc + "\n");
    assert IsBlank("\n");
    StripPadded("\n", doc, "\n");
  }

  /** The strip-first test accepts everything the source accepts, with the
      same page, and more only where the unfenced text starts with
      whitespace. */
  lemma AcceptHtmlFixedExtends(response: string)
    ensures AcceptHtml(response).Some? ==> AcceptHtmlFixed(response) == AcceptHtml(response)
    ensures AcceptHtmlFixed(response).Some? && AcceptHtml(response).None? ==>
      Unfence(response) != [] && IsSpace(Unfence(response)[0])
  {
    var b := Unfence(response);
    if IsHtml(b) {
      StripKeepsHtml(b);
    } else if b != [] && !IsSpace(b[0]) && IsHtml(Strip(b)) {
      HtmlBeforeStrip(b);
    }
  }

  /** Without leading whitespace, the stripped text is a prefix. */
  lemma HtmlBeforeStrip(b: string)
    requires b != [] && !IsSpace(b[0]) && IsHtml(Strip(b))
    ensures IsHtml(b)
  {
    var front, back := StripSplit(b);
    var r := Strip(b);
    if StartsWith(r, "<!DOCTYPE") {
      UnpaddedPrefix(front, r, back, "<!DOCTYPE");
    } else {
      UnpaddedPrefix(front, r, back, "<html");
    }
  }

  lemma UnpaddedPrefix(front: string, r: string, back: string, p: string)
    requires IsBlank(front) && front + r + back != [] && !IsSpace((front + r + back)[0])
    requires StartsWith(r, p)
    ensures StartsWith(front + r + back, p)
  {
    assert forall t | 0 <= t < |front| :: (front + r + back)[t] == front[t];
    assert front + r + back == r + back;
    StartsWithConcat(r, back, p);
  }

  // ---------------------------------------------------------------------
  // `generate_default_html` (md2html.py:140-164)

  /** The page template around the title (twice) and the body. */
  const Page0: string :=
    "<!DOCTYPE html>\n" +
    "<html lang=\"zh-CN\">\n" +
    "<head>\n" +
    "    <meta charset=\"UTF-8\">\n" +
    "    <meta name=\"viewport\" content=\"width=device-width, initial-scale=1.0\">\n" +
    "    <title>"

  const Page1: string :=
    "</title>\n" +
    "    <style>\n" +
    "        body { font-family: 'Microsoft YaHei', Arial, sans-serif; line-height: 1.6; color: #333; max-width: 800px; margin: 0 auto; padding: 20px; }\n" +
    "        h1 { color: #2c3e50; border-bottom: 2px solid #eee; padding-bottom: 10px; }\n" +
    "        p { margin-bottom: 15px; }\n" +
    "        @media (max-width: 768px) { body { padding: 15px; } }\n" +
    "    </style>\n" +
    "</head>\n" +
    "<body>\n" +
    "    <h1>"

  const Page2: string :=
    "</h1>\n" +
    "    <div>"

  const Page3: string :=
    "</div>\n" +
    "</body>\n" +
    "</html>"

  /** The lines of the stripped news item; never empty, so the source's
      `新闻 {index+1}` fallback for the title cannot be taken. */
  function NewsLines(news: string): (lines: seq<string>)
    ensures |lines| >= 1 && forall k | 0 <= k < |lines| :: '\n' !in lines[k]
  {
    Split(Strip(news), '\n')
  }

  /** The first line without its `##` pairs, stripped. */
  function DefaultTitle(news: string): (t: string)
    ensures IsStripped(t) && '\n' !in t && !HasHashPair(t)
  {
    var first := NewsLines(news)[0];
    DeleteHashPairsAbsent(first, '\n');
    DeleteHashPairsComplete(first);
    StripNoHashPair(DeleteHashPairs(first));
    StripKeepsAbsent(DeleteHashPairs(first), '\n');
    Strip(DeleteHashPairs(first))
  }

  /** The remaining lines, re-joined with newlines. */
  function DefaultBody(news: string): string
  {
    var lines := NewsLines(news);
    if |lines| > 1 then Join(lines[1..], "\n") else ""
  }

  function DefaultHtml(news: string): string
  {
    var t := DefaultTitle(news);
    Page0 + t + Page1 + t + Page2 + ReplaceCharBy(DefaultBody(news), '\n', "<br>") + Page3
  }

  /** First line and body give back the stripped item. */
  lemma DefaultSplitsNews(news: string)
    ensures Strip(news) == NewsLines(news)[0] + (if |NewsLines(news)| > 1 then "\n" + DefaultBody(news) else "")
  {
    var lines := NewsLines(news);
    JoinSplit(Strip(news), '\n');
  }

  /** The body shows the lines after the first, joined with `<br>`. */
  lemma DefaultBodyBreaks(news: string)
    ensures ReplaceCharBy(DefaultBody(news), '\n', "<br>") == Join(NewsLines(news)[1..], "<br>")
  {
    var lines := NewsLines(news);
    if |lines| > 1 {
      ReplaceJoin(lines[1..], '\n', "<br>");
    }
  }

  /** The fallback page, as it reads: the title in the tab and the heading,
      the other lines separated by `<br>`. */
  lemma DefaultHtmlLayout(news: string)
    ensures var t := DefaultTitle(news);
      DefaultHtml(news) == Page0 + t + Page1 + t + Page2 + Join(NewsLines(news)[1..], "<br>") + Page3
  {
    DefaultBodyBreaks(news);
  }

  lemma TemplateEnds()
    ensures StartsWith(Page0, "<!DOCTYPE") && |Page3| >= 1 && Page3[|Page3| - 1] == '>'
  {
    assert Page0[..9] == "<!DOCTYPE";
  }

  lemma StartsWithConcat(a: string, b: string, p: string)
    requires StartsWith(a, p)
    ensures StartsWith(a + b, p)
  {
    assert (a + b)[..|p|] == a[..|p|];
  }

  lemma LastOfConcat(a: string, b: string)
    requires b != []
    ensures (a + b)[|a + b| - 1] == b[|b| - 1]
  {
  }

  /** The fallback page passes the clean-up unchanged. */
  lemma DefaultHtmlAccepted(news: string)
    ensures AcceptHtml(DefaultHtml(news)) == Some(DefaultHtml(news))
    ensures AcceptHtmlFixed(DefaultHtml(news)) == Some(DefaultHtml(news))
  {
    var t := DefaultTitle(news);
    var body := ReplaceCharBy(DefaultBody(news), '\n', "<br>");
    var p := "<!DOCTYPE";
    TemplateEnds();
    StartsWithConcat(Page0, t, p);
    StartsWithConcat(Page0 + t, Page1, p);
    StartsWithConcat(Page0 + t + Page1, t, p);
    StartsWithConcat(Page0 + t + Page1 + t, Page2, p);
    StartsWithConcat(Page0 + t + Page1 + t + Page2, body, p);
    StartsWithConcat(Page0 + t + Page1 + t + Page2 + body, Page3, p);
    LastOfConcat(Page0 + t + Page1 + t + Page2 + body, Page3);
    PageShape(DefaultHtml(news));
  }

  /** A document from `<!DOCTYPE` to a closing `>` is stripped, has no fence
      to cut and passes the test. */
  lemma PageShape(h: string)
    requires StartsWith(h, "<!DOCTYPE") && h[|h| - 1] == '>'
    ensures Unfence(h) == h && Strip(h) == h && IsHtml(h)
  {
    assert h[0] == '<';
    assert IsStripped(h);
    StripOfStripped(h);
    assert !StartsWith(h, "```") && !StartsWith(h, "```html") by {
      assert h[..3][0] == '<';
    }
    assert !EndsWith(h, "```") by {
      assert h[|h| - 3..][2] == '>';
    }
  }

  /** The page saved for one item: the model's answer when it passes the
      clean-up, the fallback page otherwise or when the call failed. */
  function NewsHtml(response: Option<string>, news: string): (page: string)
    ensures IsHtml(page)
  {
    DefaultHtmlAccepted(news);
    match response
    case None => DefaultHtml(news)
    case Some(r) =>
      match AcceptHtml(r)
      case Some(h) => h
      case None => DefaultHtml(news)
  }

  /** The page for one item with the strip-first acceptance test. */
  function NewsHtmlFixed(response: Option<string>, news: string): (page: string)
    ensures IsHtml(page)
  {
    DefaultHtmlAccepted(news);
    match response
    case None => DefaultHtml(news)
    case Some(r) =>
      match AcceptHtmlFixed(r)
      case Some(h) => h
      case None => DefaultHtml(news)
  }

  /** As written, a page fenced on lines of its own is thrown away and the
      item gets the fallback page. */
  lemma FencedPageFallsBack(doc: string, news: string)
    ensures NewsHtml(Some(FencedPage(doc)), news) == DefaultHtml(news)
  {
    FencedPageRefused(doc);
  }

  /** With the strip-first test, the fenced page is the one saved. */
  lemma FencedPageSaved(doc: string, news: string)
    requires IsHtml(doc) && IsStripped(doc)
    ensures NewsHtmlFixed(Some(FencedPage(doc)), news) == doc
  {
    FencedPageAccepted(doc);
  }

  /** The strip-first test saves the same page wherever the source keeps the
      model's answer. */
  lemma NewsHtmlFixedExtends(response: string, news: string)
    ensures AcceptHtml(response).Some? ==> NewsHtmlFixed(Some(response), news) == NewsHtml(Some(response), news)
  {
    AcceptHtmlFixedExtends(response);
  }

  // ---------------------------------------------------------------------
  // Titles (md2html.py:93, 207-208)

  /** `新闻 {i+1}`. */
  function NewsLabel(i: nat): (r: string)
    ensures r != [] && IsStripped(r) && '#' !in r && '\n' !in r
  {
    var n := NatToString(i + 1);
    assert n[|n| - 1] != ' ';
    "新闻 " + n
  }

  /** The link text in the index: the title without `##` pairs, stripped,
      or the item's label when nothing is left. */
  function IndexTitle(title: string, i: nat): (r: string)
    ensures r != [] && IsStripped(r) && !HasHashPair(r)
  {
    var t := Strip(DeleteHashPairs(title));
    DeleteHashPairsComplete(title);
    StripNoHashPair(DeleteHashPairs(title));
    if t == [] then NewsLabel(i) else t
  }

  /** The end of the line that starts at or after `j`. */
  function LineEnd(s: string, j: nat): (e: nat)
    requires j <= |s|
    ensures j <= e <= |s| && '\n' !in s[j..e] && (e < |s| ==> s[e] == '\n')
    decreases |s| - j
  {
    if j == |s| || s[j] == '\n' then j
    else
      var e := LineEnd(s, j + 1);
      assert s[j..e] == [s[j]] + s[j + 1..e];
      e
  }

  /** `re.search(r'^## (.+?)(\n|$)', item).group(1)`: the rest of the first
      line after "## ", when it is not empty. */
  function TitleMatch(item: string): (r: Option<string>)
    ensures r.None? <==> !(StartsWith(item, "## ") && |item| > 3 && item[3] != '\n')
    ensures r.Some? ==> && r.value != [] && '\n' !in r.value
                        && StartsWith(item, "## " + r.value)
                        && (|item| == 3 + |r.value| || item[3 + |r.value|] == '\n')
  {
    if StartsWith(item, "## ") && |item| > 3 && item[3] != '\n' then
      var e := LineEnd(item, 4);
      assert item[3..e] == [item[3]] + item[4..e];
      assert item[..e] == item[..3] + item[3..e];
      Some(item[3..e])
    else None
  }

  /** The title recorded for the item: its own heading, or its label. */
  function PageTitle(item: string, i: nat): (r: string)
    ensures StartsWith(r, "## ")
  {
    match TitleMatch(item)
    case Some(g) => "## " + Strip(g)
    case None => "## " + NewsLabel(i)
  }

  lemma DeleteHeadingMarker(x: string)
    requires '#' !in x
    ensures DeleteHashPairs("## " + x) == " " + x
  {
    assert ("## " + x)[2..] == " " + x;
    assert (" " + x)[1..] == x;
  }

  lemma BlankCons(x: string)
    requires IsBlank(x)
    ensures IsBlank(" " + x)
  {
    forall t | 0 <= t < |x| + 1 ensures IsSpace((" " + x)[t]) {
      if t > 0 { assert (" " + x)[t] == x[t - 1]; }
    }
  }

  lemma ConsThree(x: string, front: string, r: string, back: string)
    requires x == front + r + back
    ensures " " + x == (" " + front) + r + back
  {
  }

  lemma StripSpaceCons(x: string)
    ensures Strip(" " + x) == Strip(x)
  {
    if IsBlank(x) {
      BlankCons(x);
    } else {
      var front, back := StripSplit(x);
      ConsThree(x, front, Strip(x), back);
      BlankCons(front);
      StripPadded(" " + front, Strip(x), back);
    }
  }

  /** Cleaning a `## x` title gives back `x`, stripped, or the label. */
  lemma IndexTitleOfHeading(x: string, i: nat)
    requires '#' !in x
    ensures IndexTitle("## " + x, i) == if IsBlank(x) then NewsLabel(i) else Strip(x)
  {
    DeleteHeadingMarker(x);
    StripSpaceCons(x);
  }

  /** The index shows an item's own heading when it has one without `#`,
      and its label otherwise: the two title cleanings agree. */
  lemma IndexTitleOfPageTitle(item: string, i: nat)
    requires TitleMatch(item).Some? ==> '#' !in TitleMatch(item).value
    ensures IndexTitle(PageTitle(item, i), i) ==
      match TitleMatch(item)
      case Some(g) => if IsBlank(g) then NewsLabel(i) else Strip(g)
      case None => NewsLabel(i)
  {
    match TitleMatch(item)
    case Some(g) =>
      StripKeepsAbsent(g, '#');
      IndexTitleOfHeading(Strip(g), i);
      StripOfStripped(Strip(g));
    case None =>
      IndexTitleOfHeading(NewsLabel(i), i);
      StripOfStripped(NewsLabel(i));
  }

  // ---------------------------------------------------------------------
  // The loop of `main` over the items (md2html.py:203-215)

  /** `news_{i+1}.html`, the page's path relative to the output directory. */
  function PagePath(i: nat): string
  {
    "news_" + NatToString(i + 1) + ".html"
  }

  /** The list `[f(0), ..., f(n - 1)]`. */
  function Tabulate(f: nat -> string, n: nat): (r: seq<string>)
    ensures |r| == n
  {
    if n == 0 then [] else Tabulate(f, n - 1) + [f(n - 1)]
  }

  lemma {:induction false} TabulateAt(f: nat -> string, n: nat, k: nat)
    requires k < n
    ensures Tabulate(f, n)[k] == f(k)
  {
    if k < n - 1 {
      TabulateAt(f, n - 1, k);
    }
  }

  lemma TabulateSnoc(f: nat -> string, n: nat)
    ensures Tabulate(f, n + 1) == Tabulate(f, n) + [f(n)]
  {
  }

  /** The title of item `k`. */
  function TitleFn(items: seq<string>): nat -> string
  {
    (k: nat) => if k < |items| then PageTitle(items[k], k) else []
  }

  /** The page of item `k`. */
  function PageFn(items: seq<string>, responses: seq<Option<string>>): nat -> string
  {
    (k: nat) => if k < |items| && k < |responses| then NewsHtml(responses[k], items[k]) else []
  }

  /** Item `k` gets its title. */
  lemma TitlesAt(items: seq<string>, k: nat)
    requires k < |items|
    ensures Tabulate(TitleFn(items), |items|)[k] == PageTitle(items[k], k)
  {
    var f := TitleFn(items);
    TabulateAt(f, |items|, k);
  }

  /** Item `k` is saved as `news_{k+1}.html`. */
  lemma PathsAt(n: nat, k: nat)
    requires k < n
    ensures Tabulate(PagePath, n)[k] == PagePath(k)
  {
    TabulateAt(PagePath, n, k);
  }

  /** Item `k` gets the page made from its own text and its own answer. */
  lemma PagesAt(items: seq<string>, responses: seq<Option<string>>, k: nat)
    requires k < |items| && |responses| == |items|
    ensures Tabulate(PageFn(items, responses), |items|)[k] == NewsHtml(responses[k], items[k])
  {
    var f := PageFn(items, responses);
    TabulateAt(f, |items|, k);
  }

  /** `main`'s loop: for each item its title, its path and its page, the
      answer of the model for it being given. */
  method BuildPages(items: seq<string>, responses: seq<Option<string>>)
    returns (titles: seq<string>, paths: seq<string>, pages: seq<string>)
    requires |responses| == |items|
    ensures titles == Tabulate(TitleFn(items), |items|)
    ensures paths == Tabulate(PagePath, |items|)
    ensures pages == Tabulate(PageFn(items, responses), |items|)
  {
    var title, page := TitleFn(items), PageFn(items, responses);
    titles, paths, pages := [], [], [];
    var i := 0;
    while i < |items|
      invariant 0 <= i <= |items|
      invariant titles == Tabulate(title, i)
      invariant paths == Tabulate(PagePath, i)
      invariant pages == Tabulate(page, i)
    {
      TabulateSnoc(title, i);
      TabulateSnoc(page, i);
      TabulateSnoc(PagePath, i);
      titles := titles + [title(i)];
      pages := pages + [page(i)];
      paths := paths + [PagePath(i)];
      i := i + 1;
    }
  }

  // ---------------------------------------------------------------------
  // `create_index_page` (md2html.py:70-99)

  /** The index template around the list of links. */
  const IndexHead: string :=
    "<!DOCTYPE html>\n" +
    "<html lang=\"zh-CN\">\n" +
    "<head>\n" +
    "    <meta charset=\"UTF-8\">\n" +
    "    <meta name=\"viewport\" content=\"width=device-width, initial-scale=1.0\">\n" +
    "    <title>AI新闻页面索引</title>\n" +
    "    <style>\n" +
    "        body { font-family: 'Microsoft YaHei', Arial, sans-serif; max-width: 800px; margin: 0 auto; padding: 20px; background-color: #f5f5f5; }\n" +
    "        h1 { color: #333; text-align: center; border-bottom: 2px solid #ddd; padding-bottom: 10px; }\n" +
    "        ul { list-style-type: none; padding: 0; }\n" +
    "        li { margin: 10px 0; padding: 15px; background-color: #fff; border-radius: 5px; box-shadow: 0 2px 5px rgba(0,0,0,0.1); }\n" +
    "        a { color: #0066cc; text-decoration: none; font-size: 18px; }\n" +
    "        a:hover { text-decoration: underline; }\n" +
    "    </style>\n" +
    "</head>\n" +
    "<body>\n" +
    "    <h1>AI新闻页面索引</h1>\n" +
    "    <ul>\n"

  const IndexTail: string :=
    "    </ul>\n" +
    "</body>\n" +
    "</html>"

  /** One link of the index. */
  function IndexEntry(title: string, path: string, i: nat): string
  {
    "        <li><a href=\"" + path + "\" target=\"_blank\">" + IndexTitle(title, i) + "</a></li>\n"
  }

  /** The link of pair `k`. */
  function EntryFn(titles: seq<string>, paths: seq<string>): nat -> string
  {
    (k: nat) => if k < |titles| && k < |paths| then IndexEntry(titles[k], paths[k], k) else []
  }

  lemma Around(xs: seq<string>, k: nat)
    requires k < |xs|
    ensures xs == (xs[..k] + [xs[k]]) + xs[k + 1..]
  {
  }

  /** A concatenation is the part before `k`, the piece at `k` and the part
      after it. */
  lemma ConcatAround(xs: seq<string>, k: nat)
    requires k < |xs|
    ensures Concat(xs) == Concat(xs[..k]) + xs[k] + Concat(xs[k + 1..])
  {
    var front, x, back := xs[..k], xs[k], xs[k + 1..];
    Around(xs, k);
    ConcatAppend(front + [x], back);
    ConcatSnoc(front, x);
  }

  function Min(x: nat, y: nat): nat
  {
    if x <= y then x else y
  }

  /** The index page; `zip` stops at the shorter list. */
  method IndexPage(titles: seq<string>, paths: seq<string>) returns (html: string)
    ensures html == IndexHead + Concat(Tabulate(EntryFn(titles, paths), Min(|titles|, |paths|))) + IndexTail
  {
    var n := Min(|titles|, |paths|);
    var entry := EntryFn(titles, paths);
    var links := "";
    var i := 0;
    while i < n
      invariant 0 <= i <= n
      invariant links == Concat(Tabulate(entry, i))
    {
      ConcatSnoc(Tabulate(entry, i), entry(i));
      links := links + entry(i);
      i := i + 1;
    }
    html := IndexHead + links + IndexTail;
  }

  /** Every pair has its link in the index, after the links of the pairs
      before it and before those of the pairs after it. */
  lemma IndexLinksEvery(titles: seq<string>, paths: seq<string>, k: nat)
    requires k < |titles| && k < |paths|
    ensures var es := Tabulate(EntryFn(titles, paths), Min(|titles|, |paths|));
      Concat(es) == Concat(es[..k]) + IndexEntry(titles[k], paths[k], k) + Concat(es[k + 1..])
  {
    var es := Tabulate(EntryFn(titles, paths), Min(|titles|, |paths|));
    ConcatAround(es, k);
    TabulateAt(EntryFn(titles, paths), Min(|titles|, |paths|), k);
  }
}
