/** The client's catalog API wrapper: the reply must carry novel information
    and a chapter list; chapters get a positional title and an empty url
    when theirs is missing, the novel information gets fixed defaults and a
    chapter count, and every failure is rethrown with empty data and the
    requested novel id. */
module CatalogApi {
  import opened Wrappers
  import opened Text
  import opened HttpRetry

  datatype RawChapter = RawChapter(title: Option<string>, url: Option<string>)

  datatype Chapter = Chapter(title: string, url: string)

  datatype RawNovelInfo = RawNovelInfo(
    novelId: Option<string>,
    novelTitle: Option<string>,
    author: Option<string>,
    totalChapters: Option<int>,
    domain: Option<string>,
    detailUrl: Option<string>)

  datatype NovelInfo = NovelInfo(
    novelId: string,
    novelTitle: string,
    author: string,
    totalChapters: int,
    domain: string,
    detailUrl: string)

  /** `data`; `chapters` is `None` when it is missing. */
  datatype RawCatalog = RawCatalog(novelInfo: Option<RawNovelInfo>, chapters: Option<seq<RawChapter>>)

  datatype Catalog = Catalog(novelInfo: NovelInfo, chapters: seq<Chapter>)

  /** The reply body; the fields after `data` are passed through. */
  datatype CatalogReply = CatalogReply(status: string, message: string, data: Option<RawCatalog>, novelId: int, bookName: string, novelUrl: string)

  /** A successful result and a thrown payload have this one shape. */
  datatype CatalogResponse = CatalogResponse(status: string, message: string, data: Catalog, novelId: int, bookName: string, novelUrl: string)

  const BadFormatMessage: string := "目录数据格式错误"
  const CatalogDefaultMessage: string := "获取目录失败，请重试"

  /** The title a chapter without one gets: `第{n}章` for its 1-based position. */
  function PositionalTitle(index: nat): (t: string)
    ensures |t| >= 3 && t[0] == '第' && t[|t| - 1] == '章'
    ensures AllDigits(t[1..|t| - 1]) && DecimalValue(t[1..|t| - 1]) == index + 1
  {
    var t := "第" + NatToString(index + 1) + "章";
    assert t[1..|t| - 1] == NatToString(index + 1);
    t
  }

  /** The chapter list with defaults, keeping length and order. */
  function NormaliseChapters(cs: seq<RawChapter>): (r: seq<Chapter>)
    ensures |r| == |cs|
    ensures forall i | 0 <= i < |cs| ::
      && r[i].title == (if cs[i].title.Some? && cs[i].title.value != "" then cs[i].title.value else PositionalTitle(i))
      && r[i].url == OrString(cs[i].url, "")
  {
    seq(|cs|, i requires 0 <= i < |cs| => Chapter(OrString(cs[i].title, PositionalTitle(i)), OrString(cs[i].url, "")))
  }

  /** Normalised chapter lists are fixed points: every title is non-empty. */
  lemma NormaliseChaptersIdempotent(cs: seq<RawChapter>)
    ensures var r := NormaliseChapters(cs);
      NormaliseChapters(seq(|r|, i requires 0 <= i < |r| => RawChapter(Some(r[i].title), Some(r[i].url)))) == r
  {
  }

  /** Novel information with defaults; the chapter count falls back to the
      length of the list when missing or zero. */
  function NormaliseInfo(n: RawNovelInfo, chapterCount: nat): (r: NovelInfo)
    ensures r.novelTitle != "" && r.author != ""
    ensures r.novelId == OrString(n.novelId, "")
    ensures r.novelTitle == OrString(n.novelTitle, "未知书名") && r.author == OrString(n.author, "未知作者")
    ensures r.domain == OrString(n.domain, "") && r.detailUrl == OrString(n.detailUrl, "")
    ensures r.totalChapters == if n.totalChapters.Some? && n.totalChapters.value != 0 then n.totalChapters.value else chapterCount
  {
    NovelInfo(OrString(n.novelId, ""), OrString(n.novelTitle, "未知书名"), OrString(n.author, "未知作者"),
              if n.totalChapters.Some? && n.totalChapters.value != 0 then n.totalChapters.value else chapterCount,
              OrString(n.domain, ""), OrString(n.detailUrl, ""))
  }

  const EmptyInfo: NovelInfo := NovelInfo("", "", "", 0, "", "")

  /** `getCatalog`: fails unless data, novel information and chapters are all
      present; a failure carries empty data, the requested id and empty
      names, with a fixed text for a network error. */
  function GetCatalog(novelId: int, reply: Result<CatalogReply, ApiError>): (r: Result<CatalogResponse, CatalogResponse>)
    ensures r.Success? <==> reply.Success? && reply.value.data.Some?
                             && reply.value.data.value.novelInfo.Some? && reply.value.data.value.chapters.Some?
    ensures r.Success? ==>
      var cs := reply.value.data.value.chapters.value;
      && r.value.data.chapters == NormaliseChapters(cs)
      && r.value.data.novelInfo == NormaliseInfo(reply.value.data.value.novelInfo.value, |cs|)
      && r.value.novelId == reply.value.novelId
      && r.value.status == reply.value.status && r.value.message == reply.value.message
      && r.value.bookName == reply.value.bookName && r.value.novelUrl == reply.value.novelUrl
    ensures r.Failure? ==>
      && r.error.status == "error" && r.error.message != ""
      && r.error.data == Catalog(EmptyInfo, [])
      && r.error.novelId == novelId && r.error.bookName == "" && r.error.novelUrl == ""
    ensures reply.Failure? && reply.error.code == Some("NETWORK_ERROR") ==> r.error.message == NetworkErrorMessage
    ensures reply.Success? && r.Failure? ==> r.error.message == BadFormatMessage
    ensures reply.Failure? && reply.error.code != Some("NETWORK_ERROR") ==>
      r.error.message == OrString(Some(reply.error.message), CatalogDefaultMessage)
  {
    var err := match reply
      case Success(body) =>
        if body.data.Some? && body.data.value.novelInfo.Some? && body.data.value.chapters.Some? then None
        else Some(ApiError(None, BadFormatMessage, None))
      case Failure(e) => Some(e);
    if err.None? then
      var body := reply.value;
      var cs := body.data.value.chapters.value;
      Success(CatalogResponse(body.status, body.message,
                              Catalog(NormaliseInfo(body.data.value.novelInfo.value, |cs|), NormaliseChapters(cs)),
                              body.novelId, body.bookName, body.novelUrl))
    else
      var msg := if err.value.code == Some("NETWORK_ERROR") then NetworkErrorMessage
                 else OrString(Some(err.value.message), CatalogDefaultMessage);
      Failure(CatalogResponse("error", msg, Catalog(EmptyInfo, []), novelId, "", ""))
  }

  /** On success the reported chapter count is the list length unless the
      service reported a non-zero count. */
  lemma CatalogCountDefaultsToLength(novelId: int, reply: Result<CatalogReply, ApiError>)
    requires GetCatalog(novelId, reply).Success?
    requires var n := reply.value.data.value.novelInfo.value; n.totalChapters.None? || n.totalChapters == Some(0)
    ensures var r := GetCatalog(novelId, reply).value;
      r.data.novelInfo.totalChapters == |r.data.chapters|
  {
  }
}
