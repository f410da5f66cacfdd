/** The catalog spider: from a book's page it takes the title, the author
    and the chapter links, drops the links that are navigation rather than
    chapters, and records the chapter list. */
module CatalogSpider {
  import opened Wrappers
  import opened Text
  import opened Seqs
  import opened CrawlerConfig

  /** Python truthiness of an extracted string: present and not ''. */
  predicate Present(o: Option<string>) {
    o.Some? && o.value != ""
  }

  // ---- start_requests ----

  /** `start_requests`: no request without a url; a site-relative url is
      put under `https://www.` and the current mirror. */
  function StartUrl(novelUrl: Option<string>, currentDomain: string): (u: Option<string>)
    ensures u.None? <==> !Present(novelUrl)
    ensures u.Some? && StartsWith(novelUrl.value, "/") ==>
      u.value == "https://www." + currentDomain + novelUrl.value
    ensures u.Some? && !StartsWith(novelUrl.value, "/") ==> u.value == novelUrl.value
  {
    if !Present(novelUrl) then None
    else if StartsWith(novelUrl.value, "/") then Some("https://www." + currentDomain + novelUrl.value)
    else Some(novelUrl.value)
  }

  /** `response.url.split('/')[2]`: the host part, or `None` when the url has
      fewer than two slashes (Python raises `IndexError`). */
  function HostOf(url: string): (h: Option<string>)
    ensures h.Some? <==> |Split(url, '/')| >= 3
    ensures h.Some? ==> h.value == Split(url, '/')[2] && '/' !in h.value
  {
    var parts := Split(url, '/');
    if |parts| >= 3 then Some(parts[2]) else None
  }

  /** A url built from a site-relative path reports `www.` and the mirror as
      its host (when the mirror name has no slash). */
  lemma BuiltUrlHost(novelUrl: string, domain: string)
    requires StartsWith(novelUrl, "/") && '/' !in domain
    ensures var u := StartUrl(Some(novelUrl), domain);
      u.Some? && HostOf(u.value) == Some("www." + domain)
  {
    var host := "www." + domain;
    var rest := novelUrl[1..];
    assert '/' !in host by {
      assert forall i | 4 <= i < |host| :: host[i] == domain[i - 4];
    }
    var u := "https://www." + domain + novelUrl;
    assert u == "https:" + ['/'] + ("" + ['/'] + (host + ['/'] + rest)) by {
      assert novelUrl == "/" + rest;
    }
    ThirdPiece("https:", "", host, rest, '/');
  }

  /** The third piece of three separator-free pieces and a tail. */
  lemma ThirdPiece(a: string, b: string, c: string, rest: string, sep: char)
    requires sep !in a && sep !in b && sep !in c
    ensures |Split(a + [sep] + (b + [sep] + (c + [sep] + rest)), sep)| >= 3
    ensures Split(a + [sep] + (b + [sep] + (c + [sep] + rest)), sep)[2] == c
  {
    var tail := c + [sep] + rest;
    var mid := b + [sep] + tail;
    SplitAfterFirst(c, sep, rest);
    SplitAfterFirst(b, sep, tail);
    SplitAfterFirst(a, sep, mid);
  }

  // ---- _is_valid_chapter ----

  /** The characters of the "special characters only" rule. */
  predicate IsSpecialChar(c: char) {
    || c == '=' || c == '-' || c == '*' || c == '~' || c == '`' || c == '!'
    || c == '@' || c == '#' || c == '$' || c == '%' || c == '^' || c == '&'
    || c == '(' || c == ')' || c == '[' || c == ']' || c == '{' || c == '}'
    || c == '|' || c == '\\' || c == ':' || c == '"' || c == ';' || c == '\''
    || c == '<' || c == '>' || c == '?' || c == ',' || c == '.' || c == '/'
  }

  predicate SpecialOnly(t: string) {
    forall i | 0 <= i < |t| :: IsSpecialChar(t[i])
  }

  predicate HasInvalidPrefix(t: string) {
    exists k | 0 <= k < |InvalidChapterPrefixes| :: StartsWith(t, InvalidChapterPrefixes[k])
  }

  /** The rule for very short titles: at most two characters, all of them
      '-', '=' or '*'. */
  predicate ShortSymbols(t: string) {
    |t| <= 2 && RemoveAll(RemoveAll(RemoveAll(t, "-"), "="), "*") == ""
  }

  /** `_is_valid_chapter`, rule by rule in the order written. */
  predicate IsValidChapter(title: string) {
    var t := PyStrip(title);
    if t == "" then false
    else if t in InvalidChapterKeywords then false
    else if HasInvalidPrefix(t) then false
    else if ShortSymbols(t) then false
    else if t in NavigationKeywords then false
    else if SpecialOnly(t) then false
    else true
  }

  /** A title that the short-symbol rule rejects is made only of '-', '='
      and '*'. */
  lemma ShortSymbolsAreSpecial(t: string)
    requires ShortSymbols(t)
    ensures SpecialOnly(t)
  {
    var a := RemoveAll(t, "-");
    var b := RemoveAll(a, "=");
    RemoveAllKeepsOthers(t, '-');
    RemoveAllKeepsOthers(a, '=');
    RemoveAllKeepsOthers(b, '*');
    assert forall i | 0 <= i < |t| :: t[i] == '-' || t[i] == '=' || t[i] == '*';
  }

  /** The short-symbol rule rejects nothing that the special-character rule
      does not, so a title is valid exactly when, once stripped, it is
      non-empty, not an invalid keyword or navigation word, without an
      invalid prefix, and not made only of special characters. */
  lemma ValidChapterRules(title: string)
    ensures IsValidChapter(title) <==>
      var t := PyStrip(title);
      && t != ""
      && t !in InvalidChapterKeywords
      && !HasInvalidPrefix(t)
      && t !in NavigationKeywords
      && !SpecialOnly(t)
  {
    var t := PyStrip(title);
    if ShortSymbols(t) {
      ShortSymbolsAreSpecial(t);
    }
  }

  /** Validity depends only on the stripped title. */
  lemma ValidityIgnoresPadding(title: string)
    ensures IsValidChapter(PyStrip(title)) == IsValidChapter(title)
  {
    TrimIdempotent(title, PyIsSpace);
  }

  /** A non-empty title without padding strips to itself. */
  lemma StripKeeps(t: string)
    requires |t| > 0 && IsTrimmed(t, PyIsSpace)
    ensures PyStrip(t) == t
  {
    TrimPadded("", t, PyIsSpace);
    assert "" + t == t;
  }

  /** A navigation word is rejected by exact match. */
  lemma NextPageRejected()
    ensures !IsValidChapter("下一页")
  {
    var t := "下一页";
    StripKeeps(t);
    assert t in InvalidChapterKeywords by {
      assert InvalidChapterKeywords[8] == t;
    }
  }

  /** A title that starts with an invalid prefix is rejected. */
  lemma ExpandPrefixRejected()
    ensures !IsValidChapter("展开更多")
  {
    StripKeeps("展开更多");
    assert StartsWith("展开更多", InvalidChapterPrefixes[0]);
  }

  /** An ordinary chapter title is kept. */
  lemma OrdinaryTitleKept()
    ensures IsValidChapter("第一章 惊蛰")
  {
    var t := "第一章 惊蛰";
    StripKeeps(t);
    assert !IsSpecialChar(t[0]);
    assert !HasInvalidPrefix(t) by {
      forall k | 0 <= k < |InvalidChapterPrefixes|
        ensures !StartsWith(t, InvalidChapterPrefixes[k])
      {
        assert InvalidChapterPrefixes[k][0] != t[0];
      }
    }
  }

  // ---- parse_catalog ----

  /** One chapter link as the selectors found it: its text and its href,
      either of which may be missing. */
  datatype Link = Link(title: Option<string>, url: Option<string>)

  datatype Chapter = Chapter(title: string, url: string)

  predicate BothPresent(l: Link) {
    Present(l.title) && Present(l.url)
  }

  function ChapterOf(l: Link): Chapter
    requires BothPresent(l)
  {
    Chapter(PyStrip(l.title.value), PyStrip(l.url.value))
  }

  /** The links with both a text and an href, both stripped, in page order. */
  function ExtractChapters(links: seq<Link>): (r: seq<Chapter>)
    ensures var kept := Filter(links, BothPresent);
      |r| == |kept| && forall i | 0 <= i < |r| :: r[i] == ChapterOf(kept[i])
  {
    var kept := Filter(links, BothPresent);
    seq(|kept|, i requires 0 <= i < |kept| => ChapterOf(kept[i]))
  }

  predicate ValidEntry(c: Chapter) {
    IsValidChapter(c.title)
  }

  /** The chapters whose titles are valid, in order. */
  function FilterChapters(chapters: seq<Chapter>): (r: seq<Chapter>)
    ensures forall c | c in r :: c in chapters && IsValidChapter(c.title)
    ensures forall i | 0 <= i < |chapters| && IsValidChapter(chapters[i].title) :: chapters[i] in r
    ensures IsSubsequence(r, chapters)
    ensures forall c :: multiset(r)[c] == if IsValidChapter(c.title) then multiset(chapters)[c] else 0
  {
    FilterIsSubsequence(chapters, ValidEntry);
    assert forall c :: multiset(Filter(chapters, ValidEntry))[c] == if (ValidEntry)(c) then multiset(chapters)[c] else 0 by {
      forall c { FilterCount(chapters, ValidEntry, c); }
    }
    Filter(chapters, ValidEntry)
  }

  /** Extracted titles are stripped already. */
  lemma ExtractedTitlesStripped(links: seq<Link>)
    ensures forall c | c in ExtractChapters(links) :: PyStrip(c.title) == c.title
  {
    var kept := Filter(links, BothPresent);
    forall i | 0 <= i < |kept|
      ensures PyStrip(ChapterOf(kept[i]).title) == ChapterOf(kept[i]).title
    {
      assert kept[i] in kept;
      TrimIdempotent(kept[i].title.value, PyIsSpace);
    }
  }

  /** Every recorded chapter has a valid title that is already stripped, and
      the list keeps page order. */
  lemma RecordedChaptersClean(links: seq<Link>)
    ensures var r := FilterChapters(ExtractChapters(links));
      && IsSubsequence(r, ExtractChapters(links))
      && forall c | c in r :: IsValidChapter(c.title) && PyStrip(c.title) == c.title
  {
    var e := ExtractChapters(links);
    FilterIsSubsequence(e, ValidEntry);
    ExtractedTitlesStripped(links);
  }

  const AuthorMarker: string := "作者："

  /** The position of the first span that mentions the author marker, or the
      number of spans when none does. */
  function FirstAuthorSpan(spans: seq<string>): (i: nat)
    ensures i <= |spans|
    ensures i < |spans| ==> Contains(spans[i], AuthorMarker)
    ensures forall j | 0 <= j < i :: !Contains(spans[j], AuthorMarker)
  {
    if |spans| == 0 then 0
    else if Contains(spans[0], AuthorMarker) then 0
    else 1 + FirstAuthorSpan(spans[1..])
  }

  /** The author: the first span with the marker, the marker deleted and the
      rest stripped; `None` when no span has it. */
  function FindAuthor(spans: seq<string>): (a: Option<string>)
    ensures a.None? <==> forall j | 0 <= j < |spans| :: !Contains(spans[j], AuthorMarker)
    ensures a.Some? ==> var i := FirstAuthorSpan(spans);
      i < |spans| && a.value == PyStrip(RemoveAll(spans[i], AuthorMarker))
  {
    var i := FirstAuthorSpan(spans);
    if i < |spans| then Some(PyStrip(RemoveAll(spans[i], AuthorMarker))) else None
  }

  /** The title: the main selector's text, else the fallback's, else
      "未知标题". */
  function NovelTitle(primary: Option<string>, fallback: Option<string>): (t: string)
    ensures Present(primary) ==> t == primary.value
    ensures !Present(primary) && Present(fallback) ==> t == fallback.value
    ensures !Present(primary) && !Present(fallback) ==> t == "未知标题"
  {
    if Present(primary) then primary.value
    else if Present(fallback) then fallback.value
    else "未知标题"
  }

  /** What `parse_catalog` records about a book. */
  datatype CatalogInfo = CatalogInfo(
    novelId: string, novelTitle: string, author: Option<string>,
    totalChapters: nat, domain: string, detailUrl: string, chapters: seq<Chapter>)

  /** `parse_catalog` for a page at `responseUrl` requested for `novelUrl`.
      `writeOk` says whether writing the catalog file succeeds: looking up
      its path, opening it and dumping the JSON all sit in the same `try`
      before the item is yielded. The result is `None` when the host cannot
      be read from the url or the write raises: the handler's `except`
      swallows either error and yields nothing. */
  function ParseCatalog(novelUrl: string, responseUrl: string, primary: Option<string>,
                        fallback: Option<string>, spans: seq<string>, links: seq<Link>,
                        writeOk: bool): (r: Option<CatalogInfo>)
    ensures r.Some? <==> HostOf(responseUrl).Some? && writeOk
    ensures r.Some? ==>
      && r.value.chapters == FilterChapters(ExtractChapters(links))
      && r.value.totalChapters == |r.value.chapters|
      && r.value.author == FindAuthor(spans)
      && r.value.novelTitle == NovelTitle(primary, fallback)
      && r.value.novelId == novelUrl && r.value.detailUrl == responseUrl
      && r.value.domain == HostOf(responseUrl).value
  {
    var chapters := FilterChapters(ExtractChapters(links));
    match HostOf(responseUrl)
    case None => None
    case Some(host) =>
      if writeOk then
        Some(CatalogInfo(novelUrl, NovelTitle(primary, fallback), FindAuthor(spans),
                         |chapters|, host, responseUrl, chapters))
      else None
  }

  /** Whether the crawler's configuration module defines the catalog-path
      helper `get_catalog_output_file` that `parse_catalog` calls. As the
      module is written it does not, so the lookup raises `AttributeError`. */
  const CatalogPathHelperDefined: bool := false

  /** As written, the catalog write can never succeed, so `parse_catalog`
      never yields an item, for any page. */
  lemma NoCatalogItemAsWritten(novelUrl: string, responseUrl: string, primary: Option<string>,
                               fallback: Option<string>, spans: seq<string>, links: seq<Link>, fileOk: bool)
    ensures ParseCatalog(novelUrl, responseUrl, primary, fallback, spans, links,
                         CatalogPathHelperDefined && fileOk).None?
  {
  }

  /** With the helper defined and a writable file, every page whose url has
      a host yields its item, whatever its title, spans and links. */
  lemma CatalogItemWhenWritable(novelUrl: string, responseUrl: string, primary: Option<string>,
                                fallback: Option<string>, spans: seq<string>, links: seq<Link>)
    requires |Split(responseUrl, '/')| >= 3
    ensures var r := ParseCatalog(novelUrl, responseUrl, primary, fallback, spans, links, true);
      r.Some? && r.value.domain == Split(responseUrl, '/')[2]
  {
  }
}
