/** The crawler's fixed settings: the mirror domains it rotates through, the
    retry budget, the text layout of a downloaded book, and the words that
    mark catalog links and content lines which are not chapter text. */
module CrawlerConfig {

  /** The mirrors of the site, in rotation order. */
  const SupportedDomains: seq<string> :=
    ["97c286.cfd", "efebde4.cfd", "7535b44.cfd", "0ae247c57c.icu", "4a109.cfd"]

  const DefaultDomain: string := "97c286.cfd"

  const DefaultKeyword: string := "剑来"

  /** Attempts per domain before the search spider moves on. */
  const MaxRetryTimes: nat := 3

  /** Attempts over all domains before the search spider gives up. */
  const MaxTotalAttempts: nat := |SupportedDomains| * MaxRetryTimes

  const ChapterSeparator: string := "\n\n\n--------\n\n\n"

  /** Two ideographic spaces (U+3000) opening every paragraph. */
  const ParagraphIndent: string := "\U{3000}\U{3000}"

  /** Link texts and content lines that are navigation, not chapters. */
  const InvalidChapterKeywords: seq<string> :=
    ["展开全部章节", "展开", "收起", "---", "<<<", ">>>",
     "返回目录", "上一页", "下一页", "首页", "尾页", "点此报错", "加入书签",
     "收藏本站"]

  const InvalidChapterPrefixes: seq<string> := ["展开", "收起", "<<<", ">>>"]

  const NavigationKeywords: seq<string> := ["请假条", "单章感言", "作者有话说"]
}
