/** The content spider: one request per catalog chapter whose url is a
    `/book/` path, spread over the mirrors by catalog position, and the
    cleaning of the text a chapter page yields. */
module ContentSpider {
  import opened Wrappers
  import opened Text
  import opened Seqs
  import opened CrawlerConfig
  import CatalogSpider

  // ---- clean_content ----

  /** The characters at which Python's `str.splitlines` breaks a line. */
  predicate IsLineBreak(c: char) {
    || c == '\n' || c == '\r' || c == '\U{000B}' || c == '\U{000C}'
    || c == '\U{001C}' || c == '\U{001D}' || c == '\U{001E}'
    || c == '\U{0085}' || c == '\U{2028}' || c == '\U{2029}'
  }

  predicate NoLineBreak(s: string) {
    forall i | 0 <= i < |s| :: !IsLineBreak(s[i])
  }

  /** The line-break characters of `s`, in order. */
  function LineBreaks(s: string): (b: string)
    ensures |b| <= |s|
  {
    if |s| == 0 then ""
    else (if IsLineBreak(s[0]) then [s[0]] else "") + LineBreaks(s[1..])
  }

  /** The pieces with the `i`-th break put back between piece `i` and piece
      `i + 1`. */
  function Rejoin(pieces: seq<string>, breaks: string): string
    requires |pieces| == |breaks| + 1
    decreases |breaks|
  {
    if |breaks| == 0 then pieces[0]
    else pieces[0] + [breaks[0]] + Rejoin(pieces[1..], breaks[1..])
  }

  /** The pieces between line breaks: one more piece than there are breaks,
      none containing a break, and putting the breaks back restores `s`.
      This differs from `str.splitlines` only by empty pieces (for "\r\n",
      a trailing break, or ''), which cleaning discards. */
  function SplitLines(s: string): (r: seq<string>)
    ensures |r| >= 1
    ensures forall k | 0 <= k < |r| :: NoLineBreak(r[k])
    ensures |r| == |LineBreaks(s)| + 1 && Rejoin(r, LineBreaks(s)) == s
  {
    if |s| == 0 then [""]
    else
      var rest := SplitLines(s[1..]);
      if IsLineBreak(s[0]) then
        var r := [""] + rest;
        var b := LineBreaks(s);
        assert b == [s[0]] + LineBreaks(s[1..]);
        assert r[1..] == rest && b[1..] == LineBreaks(s[1..]);
        assert Rejoin(r, b) == "" + [s[0]] + Rejoin(rest, LineBreaks(s[1..]));
        assert s == [s[0]] + s[1..];
        r
      else
        var r := [[s[0]] + rest[0]] + rest[1..];
        assert LineBreaks(s) == "" + LineBreaks(s[1..]) == LineBreaks(s[1..]);
        RejoinExtendFirst([s[0]], rest, LineBreaks(s[1..]));
        assert s == [s[0]] + s[1..];
        r
  }

  /** Prefixing the first piece prefixes the rejoined text. */
  lemma RejoinExtendFirst(x: string, pieces: seq<string>, breaks: string)
    requires |pieces| == |breaks| + 1
    ensures Rejoin([x + pieces[0]] + pieces[1..], breaks) == x + Rejoin(pieces, breaks)
  {
    var q := [x + pieces[0]] + pieces[1..];
    assert q[0] == x + pieces[0];
    if |breaks| > 0 {
      assert q[1..] == pieces[1..];
    }
  }

  lemma {:induction false} SplitLinesAfterFirst(a: string, b: string)
    requires NoLineBreak(a)
    ensures SplitLines(a + "\n" + b) == [a] + SplitLines(b)
    ensures SplitLines(a) == [a]
    decreases |a|
  {
    var s := a + "\n" + b;
    if |a| == 0 {
      assert s[0] == '\n' && s[1..] == b;
    } else {
      assert s[0] == a[0] && s[1..] == a[1..] + "\n" + b;
      SplitLinesAfterFirst(a[1..], b);
      assert SplitLines(s[1..])[0] == a[1..];
      assert [a[0]] + a[1..] == a;
    }
  }

  /** Lines free of breaks, joined by "\n", split back into themselves. */
  lemma {:induction false} SplitJoinedLines(ps: seq<string>)
    requires |ps| >= 1
    requires forall k | 0 <= k < |ps| :: NoLineBreak(ps[k])
    ensures SplitLines(Join(ps, "\n")) == ps
    decreases |ps|
  {
    SplitLinesAfterFirst(ps[0], "");
    if |ps| > 1 {
      SplitJoinedLines(ps[1..]);
      SplitLinesAfterFirst(ps[0], Join(ps[1..], "\n"));
    }
  }

  /** A line mentions one of the invalid keywords somewhere. */
  predicate HasInvalidKeyword(t: string) {
    exists k | 0 <= k < |InvalidChapterKeywords| :: Contains(t, InvalidChapterKeywords[k])
  }

  /** A stripped line worth keeping: not blank and free of invalid keywords. */
  predicate KeepLine(t: string) {
    t != "" && !HasInvalidKeyword(t)
  }

  function StripAll(lines: seq<string>): (r: seq<string>)
    ensures |r| == |lines| && forall i | 0 <= i < |r| :: r[i] == PyStrip(lines[i])
  {
    seq(|lines|, i requires 0 <= i < |lines| => PyStrip(lines[i]))
  }

  function IndentAll(ts: seq<string>): (r: seq<string>)
    ensures |r| == |ts| && forall i | 0 <= i < |r| :: r[i] == ParagraphIndent + ts[i]
  {
    seq(|ts|, i requires 0 <= i < |ts| => ParagraphIndent + ts[i])
  }

  /** The kept lines, stripped and indented, in their original order. */
  function CleanLines(lines: seq<string>): seq<string> {
    IndentAll(Filter(StripAll(lines), KeepLine))
  }

  /** `clean_content`: '' stays ''; otherwise every line is stripped, blank
      lines and lines with an invalid keyword are dropped, and the rest are
      indented and joined by "\n". */
  function CleanContent(text: string): (r: string)
    ensures text == "" ==> r == ""
  {
    if text == "" then "" else Join(CleanLines(SplitLines(text)), "\n")
  }

  /** Characters of a stripped string come from the original. */
  lemma StripKeepsNoBreak(s: string)
    requires NoLineBreak(s)
    ensures NoLineBreak(PyStrip(s))
  {
    var r := PyStrip(s);
    var i :| 0 <= i <= |s| - |r| && OccursAt(s, r, i);
    InnerNoBreak(s, r, i);
  }

  lemma InnerNoBreak(s: string, r: string, i: int)
    requires NoLineBreak(s) && OccursAt(s, r, i)
    ensures NoLineBreak(r)
  {
    forall j | 0 <= j < |r|
      ensures !IsLineBreak(r[j])
    {
      assert r[j] == s[i..i + |r|][j] == s[i + j];
    }
  }

  /** The stripped lines that cleaning keeps: non-blank, free of keywords,
      without padding and without breaks. */
  predicate CleanBody(t: string) {
    KeepLine(t) && IsTrimmed(t, PyIsSpace) && NoLineBreak(t)
  }

  lemma KeptLinesClean(lines: seq<string>)
    requires forall k | 0 <= k < |lines| :: NoLineBreak(lines[k])
    ensures forall t | t in Filter(StripAll(lines), KeepLine) :: CleanBody(t)
  {
    forall k | 0 <= k < |lines|
      ensures NoLineBreak(PyStrip(lines[k]))
    {
      StripKeepsNoBreak(lines[k]);
    }
  }

  /** An indented clean body starts with the indent and has no break. */
  lemma IndentedLine(t: string)
    requires NoLineBreak(t)
    ensures var l := ParagraphIndent + t;
      StartsWith(l, ParagraphIndent) && l[|ParagraphIndent|..] == t && NoLineBreak(l)
  {
    var l := ParagraphIndent + t;
    assert forall j | 2 <= j < |l| :: l[j] == t[j - 2];
  }

  /** Each cleaned line is the indent and a clean body, and has no break. */
  lemma CleanLinesShape(lines: seq<string>)
    requires forall k | 0 <= k < |lines| :: NoLineBreak(lines[k])
    ensures var out := CleanLines(lines);
      forall k | 0 <= k < |out| ::
        && StartsWith(out[k], ParagraphIndent) && CleanBody(out[k][|ParagraphIndent|..])
        && NoLineBreak(out[k])
  {
    var f := Filter(StripAll(lines), KeepLine);
    KeptLinesClean(lines);
    forall k | 0 <= k < |f|
      ensures CleanBody(f[k])
    {
      assert f[k] in f;
    }
    IndentedLines(f);
  }

  lemma IndentedLines(f: seq<string>)
    requires forall k | 0 <= k < |f| :: CleanBody(f[k])
    ensures var out := IndentAll(f);
      forall k | 0 <= k < |out| ::
        && StartsWith(out[k], ParagraphIndent) && CleanBody(out[k][|ParagraphIndent|..])
        && NoLineBreak(out[k])
  {
    forall k | 0 <= k < |f|
      ensures var l := ParagraphIndent + f[k];
        StartsWith(l, ParagraphIndent) && l[|ParagraphIndent|..] == f[k] && NoLineBreak(l)
    {
      IndentedLine(f[k]);
    }
  }

  /** Every line of the cleaned text is the indent followed by a non-blank,
      stripped line of the input that holds no invalid keyword; the lines
      are the cleaned lines in input order, and the text is empty exactly
      when no line is kept. */
  lemma CleanContentLines(text: string)
    ensures var out := CleanLines(SplitLines(text));
      && (CleanContent(text) == "" <==> text == "" || out == [])
      && (CleanContent(text) != "" ==> SplitLines(CleanContent(text)) == out)
      && forall k | 0 <= k < |out| ::
           StartsWith(out[k], ParagraphIndent) && CleanBody(out[k][|ParagraphIndent|..])
  {
    var out := CleanLines(SplitLines(text));
    CleanLinesShape(SplitLines(text));
    if text != "" && out != [] {
      SplitJoinedLines(out);
      JoinLongerThanFirst(out, "\n");
    }
  }

  lemma JoinLongerThanFirst(ps: seq<string>, sep: string)
    requires |ps| >= 1
    ensures |Join(ps, sep)| >= |ps[0]|
  {
    if |ps| > 1 {
      assert Join(ps, sep) == ps[0] + sep + Join(ps[1..], sep);
    }
  }

  /** Cleaned lines are cleaned again into themselves: the indent is
      whitespace to `strip`, so it comes off and goes back on. */
  lemma CleanLinesFixed(f: seq<string>)
    requires forall t | t in f :: CleanBody(t)
    ensures CleanLines(IndentAll(f)) == IndentAll(f)
  {
    StripIndented(f);
    forall i | 0 <= i < |f|
      ensures KeepLine(f[i])
    {
      assert f[i] in f;
    }
    FilterAll(f, KeepLine);
  }

  /** Stripping an indented trimmed line gives the line back. */
  lemma StripIndented(f: seq<string>)
    requires forall t | t in f :: IsTrimmed(t, PyIsSpace) && t != ""
    ensures StripAll(IndentAll(f)) == f
  {
    var lines := IndentAll(f);
    forall i | 0 <= i < |f|
      ensures PyStrip(lines[i]) == f[i]
    {
      assert f[i] in f;
      StripIndentedLine(f[i]);
    }
  }

  lemma StripIndentedLine(t: string)
    requires IsTrimmed(t, PyIsSpace) && t != ""
    ensures PyStrip(ParagraphIndent + t) == t
  {
    assert PyIsSpace(ParagraphIndent[0]) && PyIsSpace(ParagraphIndent[1]);
    TrimPadded(ParagraphIndent, t, PyIsSpace);
  }

  /** `clean_content` is idempotent. */
  lemma CleanContentIdempotent(text: string)
    ensures CleanContent(CleanContent(text)) == CleanContent(text)
  {
    var r := CleanContent(text);
    if r != "" {
      CleanContentLines(text);
      var f := Filter(StripAll(SplitLines(text)), KeepLine);
      KeptLinesClean(SplitLines(text));
      CleanLinesFixed(f);
    }
  }

  /** A page whose every line is blank or navigation yields no content. */
  lemma NavigationOnlyPageIsEmpty(text: string)
    requires forall k | 0 <= k < |SplitLines(text)| :: !KeepLine(PyStrip(SplitLines(text)[k]))
    ensures CleanContent(text) == ""
  {
    FilterNone(StripAll(SplitLines(text)), KeepLine);
  }

  // ---- start_requests ----

  /** A chapter request: the chapter's position in the catalog and the full
      url it is fetched from. */
  datatype ChapterRequest = ChapterRequest(index: nat, url: string)

  const BookPrefix: string := "/book/"

  function ChapterUrl(index: nat, path: string): string {
    "https://www." + SupportedDomains[index % |SupportedDomains|] + path
  }

  /** `r` are the requests for `urls`: each one is for a "/book/" url, on
      the mirror its catalog position picks; every "/book/" url has one; and
      they keep catalog order. */
  predicate RequestsFor(urls: seq<string>, r: seq<ChapterRequest>) {
    RequestsSound(urls, r) && RequestsComplete(urls, r) && RequestsOrdered(r)
  }

  predicate RequestsSound(urls: seq<string>, r: seq<ChapterRequest>) {
    forall k | 0 <= k < |r| ::
      && r[k].index < |urls|
      && StartsWith(urls[r[k].index], BookPrefix)
      && r[k].url == ChapterUrl(r[k].index, urls[r[k].index])
  }

  predicate RequestsComplete(urls: seq<string>, r: seq<ChapterRequest>) {
    forall i | 0 <= i < |urls| && StartsWith(urls[i], BookPrefix) ::
      exists k | 0 <= k < |r| :: r[k].index == i
  }

  predicate RequestsOrdered(r: seq<ChapterRequest>) {
    forall k, j | 0 <= k < j < |r| :: r[k].index < r[j].index
  }

  /** `start_requests` over the catalog's chapter urls (a missing url is
      ''): a request for each url starting with "/book/", in catalog order,
      on the mirror chosen by the chapter's catalog position, skipped
      chapters counted. */
  function ContentRequests(urls: seq<string>): (r: seq<ChapterRequest>)
    ensures RequestsFor(urls, r)
  {
    if |urls| == 0 then []
    else
      var n := |urls| - 1;
      var init := ContentRequests(urls[..n]);
      var r := if StartsWith(urls[n], BookPrefix) then init + [ChapterRequest(n, ChapterUrl(n, urls[n]))] else init;
      RequestsExtend(urls, init, r);
      r
  }

  /** The requests for one more url: those for the earlier urls, then one
      for the new url when it is a "/book/" url. */
  lemma RequestsExtend(urls: seq<string>, init: seq<ChapterRequest>, r: seq<ChapterRequest>)
    requires |urls| > 0 && RequestsFor(urls[..|urls| - 1], init)
    requires var n := |urls| - 1;
      r == if StartsWith(urls[n], BookPrefix) then init + [ChapterRequest(n, ChapterUrl(n, urls[n]))] else init
    ensures RequestsFor(urls, r)
  {
    var n := |urls| - 1;
    var extra := if StartsWith(urls[n], BookPrefix) then [ChapterRequest(n, ChapterUrl(n, urls[n]))] else [];
    assert r == init + extra;
    assert forall i | 0 <= i < n :: urls[..n][i] == urls[i];
    assert forall k | 0 <= k < |init| :: r[k] == init[k];
    ExtendSound(urls, init, extra, r);
    ExtendComplete(urls, init, extra, r);
  }

  lemma ExtendSound(urls: seq<string>, init: seq<ChapterRequest>, extra: seq<ChapterRequest>, r: seq<ChapterRequest>)
    requires |urls| > 0 && RequestsSound(urls[..|urls| - 1], init) && RequestsOrdered(init)
    requires var n := |urls| - 1;
      extra == if StartsWith(urls[n], BookPrefix) then [ChapterRequest(n, ChapterUrl(n, urls[n]))] else []
    requires r == init + extra
    ensures RequestsSound(urls, r) && RequestsOrdered(r)
  {
    var n := |urls| - 1;
    assert forall k | 0 <= k < |init| :: r[k] == init[k] && init[k].index < n && urls[..n][init[k].index] == urls[init[k].index];
  }

  lemma ExtendComplete(urls: seq<string>, init: seq<ChapterRequest>, extra: seq<ChapterRequest>, r: seq<ChapterRequest>)
    requires |urls| > 0 && RequestsComplete(urls[..|urls| - 1], init)
    requires var n := |urls| - 1;
      extra == if StartsWith(urls[n], BookPrefix) then [ChapterRequest(n, ChapterUrl(n, urls[n]))] else []
    requires r == init + extra
    ensures RequestsComplete(urls, r)
  {
    var n := |urls| - 1;
    forall i | 0 <= i < |urls| && StartsWith(urls[i], BookPrefix)
      ensures exists k | 0 <= k < |r| :: r[k].index == i
    {
      if i == n {
        assert r[|init|].index == n;
      } else {
        assert urls[..n][i] == urls[i];
        var k :| 0 <= k < |init| && init[k].index == i;
        assert r[k].index == i;
      }
    }
  }

  // ---- parse ----

  /** What `parse` yields for a chapter page: the novel's id and title from
      the catalog's information (missing keys stay missing), the chapter
      title, the page url, its host and the cleaned text. */
  datatype ContentItem = ContentItem(
    novelId: Option<string>, novelTitle: Option<string>, chapterTitle: string,
    detailUrl: string, domain: string, content: string)

  /** `parse`: the title is the page's `h1` text (else the catalog entry's
      title, else ''), stripped; the content is the page's text pieces joined
      by "\n", stripped and cleaned. A url with fewer than two slashes makes
      the host lookup raise before anything is recorded: no item, and the
      failed list is unchanged. Otherwise the url is added to `failed` exactly
      when the content comes out empty. */
  function Parse(failed: seq<string>, responseUrl: string, novelId: Option<string>, novelTitle: Option<string>,
                 h1: Option<string>, catalogTitle: Option<string>, rawTexts: seq<string>)
    : (r: Option<(ContentItem, seq<string>)>)
    ensures r.None? <==> CatalogSpider.HostOf(responseUrl).None?
    ensures r.Some? ==>
      var (item, failed') := r.value;
      && item.content == CleanContent(if |rawTexts| == 0 then "" else PyStrip(Join(rawTexts, "\n")))
      && (item.content == "" ==> failed' == failed + [responseUrl])
      && (item.content != "" ==> failed' == failed)
      && (h1.Some? ==> item.chapterTitle == PyStrip(h1.value))
      && (h1.None? && catalogTitle.Some? ==> item.chapterTitle == PyStrip(catalogTitle.value))
      && (h1.None? && catalogTitle.None? ==> item.chapterTitle == "")
      && item.novelId == novelId && item.novelTitle == novelTitle
      && item.detailUrl == responseUrl
      && item.domain == Split(responseUrl, '/')[2]
  {
    var title := PyStrip(if h1.Some? then h1.value else catalogTitle.GetOr(""));
    match CatalogSpider.HostOf(responseUrl)
    case None => None
    case Some(domain) =>
      var raw := if |rawTexts| == 0 then "" else PyStrip(Join(rawTexts, "\n"));
      var content := CleanContent(raw);
      Some((ContentItem(novelId, novelTitle, title, responseUrl, domain, content),
            if content == "" then failed + [responseUrl] else failed))
  }

  /** A page with no text is recorded as failed, unless its url has no host
      part, in which case nothing is recorded. */
  lemma EmptyPageRecorded(failed: seq<string>, url: string, id: Option<string>, novel: Option<string>,
                          h1: Option<string>, title: Option<string>)
    ensures var r := Parse(failed, url, id, novel, h1, title, []);
      r.Some? ==> r.value.1 == failed + [url]
    ensures |Split(url, '/')| >= 3 ==> Parse(failed, url, id, novel, h1, title, []).Some?
  {
  }

  /** A string without the separator splits into itself alone. */
  lemma {:induction false} SplitWithoutSeparator(s: string, c: char)
    requires c !in s
    ensures Split(s, c) == [s]
    decreases |s|
  {
    if |s| > 0 {
      assert c !in s[1..];
      SplitWithoutSeparator(s[1..], c);
      assert [s[0]] + s[1..] == s;
    }
  }

  /** A relative url such as "chapter.html" has no host part: the page yields
      no item and records nothing, whatever its text. */
  lemma NoHostNoRecord(failed: seq<string>, url: string, id: Option<string>, novel: Option<string>,
                       h1: Option<string>, title: Option<string>, texts: seq<string>)
    requires '/' !in url
    ensures Parse(failed, url, id, novel, h1, title, texts).None?
  {
    SplitWithoutSeparator(url, '/');
  }
}
