/** The client's search API wrapper: the keyword is trimmed before it is
    sent, the reply must carry an array, each result gets defaults for its
    five display fields, and every failure is rethrown with an empty result
    list and the keyword exactly as the caller gave it. */
module SearchApi {
  import opened Wrappers
  import opened Text
  import opened HttpRetry

  /** A search result as it arrives; `index` and `searchKeyword` stand for
      any field beyond the five the client keeps. */
  datatype RawBook = RawBook(
    urlList: Option<string>,
    urlImg: Option<string>,
    articleName: Option<string>,
    author: Option<string>,
    intro: Option<string>,
    index: Option<int>,
    searchKeyword: Option<string>)

  datatype BookItem = BookItem(urlList: string, urlImg: string, articleName: string, author: string, intro: string)

  /** `data` is `None` when it is missing or not an array. */
  datatype SearchReply = SearchReply(status: string, message: string, data: Option<seq<RawBook>>)

  datatype SearchResponse = SearchResponse(status: string, message: string, data: seq<BookItem>)

  datatype SearchFailure = SearchFailure(status: string, message: string, data: seq<BookItem>, keyword: string)

  const DefaultCover: string := "/default-book-cover.jpg"
  const UnknownTitle: string := "未知书名"
  const UnknownAuthor: string := "未知作者"
  const NoIntro: string := "暂无简介"
  const BadFormatMessage: string := "搜索结果格式错误"
  const SearchDefaultMessage: string := "搜索失败，请重试"

  /** One result with defaults filled in and other fields dropped. */
  function NormaliseBook(b: RawBook): (r: BookItem)
    ensures r.urlImg != "" && r.articleName != "" && r.author != "" && r.intro != ""
    ensures b.urlList.Some? ==> r.urlList == b.urlList.value
    ensures b.articleName.Some? && b.articleName.value != "" ==> r.articleName == b.articleName.value
    ensures b.articleName.None? || b.articleName == Some("") ==> r.articleName == UnknownTitle
    ensures b.urlList.None? ==> r.urlList == ""
    ensures r.urlImg == OrString(b.urlImg, DefaultCover) && r.author == OrString(b.author, UnknownAuthor)
    ensures r.intro == OrString(b.intro, NoIntro)
  {
    BookItem(OrString(b.urlList, ""), OrString(b.urlImg, DefaultCover), OrString(b.articleName, UnknownTitle),
             OrString(b.author, UnknownAuthor), OrString(b.intro, NoIntro))
  }

  function NormaliseBooks(bs: seq<RawBook>): (r: seq<BookItem>)
    ensures |r| == |bs|
    ensures forall i | 0 <= i < |bs| :: r[i] == NormaliseBook(bs[i])
  {
    if |bs| == 0 then [] else [NormaliseBook(bs[0])] + NormaliseBooks(bs[1..])
  }

  /** A normalised item sent back as a raw result. */
  function ToRaw(b: BookItem): RawBook {
    RawBook(Some(b.urlList), Some(b.urlImg), Some(b.articleName), Some(b.author), Some(b.intro), None, None)
  }

  /** Normalising a result twice is normalising it once. */
  lemma NormaliseBookIdempotent(b: RawBook)
    ensures NormaliseBook(ToRaw(NormaliseBook(b))) == NormaliseBook(b)
  {
  }

  /** The keyword sent to the service: the typed keyword with the white
      space at both ends cut off, and nothing else. */
  function SearchKeyword(keyword: string): (k: string)
    ensures IsTrimmed(k, JsIsSpace)
    ensures Contains(keyword, k)
    ensures CutOf(keyword, k, JsIsSpace)
  {
    var k := JsTrim(keyword);
    assert IsTrimmed(k, JsIsSpace);
    k
  }

  /** Any way of writing `k` with white space around it sends `k`: the
      keyword sent is the only trimmed cut of what was typed. */
  lemma SentKeywordIsTheTrimmedCut(keyword: string, k: string)
    requires CutOf(keyword, k, JsIsSpace) && IsTrimmed(k, JsIsSpace)
    ensures SearchKeyword(keyword) == k
  {
    TrimmedCutUnique(keyword, SearchKeyword(keyword), k, JsIsSpace);
  }

  /** `searchBooks`: `server` answers the request carrying the trimmed
      keyword. A reply without an array is a failure; failures carry no
      results and the caller's own keyword, with a fixed text for a network
      error. */
  function SearchBooks(keyword: string, server: string -> Result<SearchReply, ApiError>): (r: Result<SearchResponse, SearchFailure>)
    ensures var reply := server(SearchKeyword(keyword));
      && (r.Success? <==> reply.Success? && reply.value.data.Some?)
      && (r.Success? ==> r.value == SearchResponse(reply.value.status, reply.value.message, NormaliseBooks(reply.value.data.value)))
      && (r.Failure? ==> r.error.status == "error" && r.error.data == [] && r.error.keyword == keyword && r.error.message != "")
      && (reply.Failure? && reply.error.code == Some("NETWORK_ERROR") ==> r.error.message == NetworkErrorMessage)
      && (reply.Failure? && reply.error.code != Some("NETWORK_ERROR") ==>
            r.error.message == OrString(Some(reply.error.message), SearchDefaultMessage))
      && (reply.Success? && r.Failure? ==> r.error.message == BadFormatMessage)
  {
    SearchOutcome(keyword, server(SearchKeyword(keyword)))
  }

  /** What `searchBooks` makes of the reply to the keyword it sent. */
  function SearchOutcome(keyword: string, reply: Result<SearchReply, ApiError>): (r: Result<SearchResponse, SearchFailure>)
    ensures r.Success? <==> reply.Success? && reply.value.data.Some?
    ensures r.Success? ==> r.value == SearchResponse(reply.value.status, reply.value.message, NormaliseBooks(reply.value.data.value))
    ensures r.Failure? ==> r.error.status == "error" && r.error.data == [] && r.error.keyword == keyword && r.error.message != ""
    ensures reply.Failure? && reply.error.code == Some("NETWORK_ERROR") ==> r.error.message == NetworkErrorMessage
    ensures reply.Failure? && reply.error.code != Some("NETWORK_ERROR") ==>
      r.error.message == OrString(Some(reply.error.message), SearchDefaultMessage)
    ensures reply.Success? && r.Failure? ==> r.error.message == BadFormatMessage
  {
    var err := match reply
      case Success(body) => if body.data.Some? then None else Some(ApiError(None, BadFormatMessage, None))
      case Failure(e) => Some(e);
    if err.None? then Success(SearchResponse(reply.value.status, reply.value.message, NormaliseBooks(reply.value.data.value)))
    else if err.value.code == Some("NETWORK_ERROR") then Failure(SearchFailure("error", NetworkErrorMessage, [], keyword))
    else Failure(SearchFailure("error", OrString(Some(err.value.message), SearchDefaultMessage), [], keyword))
  }

  /** Leading white space in the keyword makes no difference to what is
      sent, so a successful search returns the same results. */
  lemma SearchIgnoresPadding(pad: string, keyword: string, server: string -> Result<SearchReply, ApiError>)
    requires forall i | 0 <= i < |pad| :: JsIsSpace(pad[i])
    requires IsTrimmed(keyword, JsIsSpace)
    ensures SearchKeyword(pad + keyword) == SearchKeyword(keyword) == keyword
    ensures SearchBooks(pad + keyword, server).Success? == SearchBooks(keyword, server).Success?
    ensures SearchBooks(keyword, server).Success? ==>
      SearchBooks(pad + keyword, server).value == SearchBooks(keyword, server).value
  {
    PaddedKeyword(pad, keyword);
    SameSentSameSuccess(pad + keyword, keyword, server);
  }

  /** A trimmed keyword is sent as it is, with or without leading space. */
  lemma PaddedKeyword(pad: string, keyword: string)
    requires forall i | 0 <= i < |pad| :: JsIsSpace(pad[i])
    requires IsTrimmed(keyword, JsIsSpace)
    ensures SearchKeyword(pad + keyword) == SearchKeyword(keyword) == keyword
  {
    var s := pad + keyword;
    assert CutAt(s, keyword, JsIsSpace, |pad|) by {
      assert s[|pad|..|pad| + |keyword|] == keyword;
      assert forall i | 0 <= i < |pad| :: s[i] == pad[i];
    }
    SentKeywordIsTheTrimmedCut(s, keyword);
    assert CutAt(keyword, keyword, JsIsSpace, 0) by {
      assert keyword[0..|keyword|] == keyword;
    }
    SentKeywordIsTheTrimmedCut(keyword, keyword);
  }

  /** Two keywords that send the same text get the same successful reply. */
  lemma SameSentSameSuccess(a: string, b: string, server: string -> Result<SearchReply, ApiError>)
    requires SearchKeyword(a) == SearchKeyword(b)
    ensures SearchBooks(a, server).Success? == SearchBooks(b, server).Success?
    ensures SearchBooks(a, server).Success? ==> SearchBooks(a, server).value == SearchBooks(b, server).value
  {
  }

  /** `getSearchSuggestions`: not implemented by the service; always empty. */
  function GetSearchSuggestions(keyword: string): (r: seq<string>)
    ensures |r| == 0
  {
    []
  }
}
