/** The demo content processor: it turns one sample text into paragraphs,
    gives that text to the first three catalog chapters, and lays the book
    out as a header followed by the chapters, separated by a rule. */
module DemoContent {
  import opened Wrappers
  import opened Text
  import opened Seqs
  import opened CrawlerConfig
  import CatalogSpider
  import ContentSpider

  const FullStop: char := '。'

  /** A paragraph is closed as soon as it is longer than this. */
  const ParagraphLimit: nat := 150

  /** Strings glued together in order. */
  function Concat(ss: seq<string>): string {
    if |ss| == 0 then "" else ss[0] + Concat(ss[1..])
  }

  predicate NonBlank(s: string) {
    s != ""
  }

  /** The sentences of the text: the pieces between full stops, stripped,
      the blank ones dropped, each ended again with a full stop. */
  function Sentences(text: string): (r: seq<string>)
    ensures var kept := Filter(ContentSpider.StripAll(Split(text, FullStop)), NonBlank);
      |r| == |kept| && forall i | 0 <= i < |r| :: r[i] == kept[i] + [FullStop]
  {
    WithFullStops(Filter(ContentSpider.StripAll(Split(text, FullStop)), NonBlank))
  }

  /** Each piece with the full stop put back at its end. */
  function WithFullStops(kept: seq<string>): (r: seq<string>)
    ensures |r| == |kept| && forall i | 0 <= i < |r| :: r[i] == kept[i] + [FullStop]
  {
    seq(|kept|, i requires 0 <= i < |kept| => kept[i] + [FullStop])
  }

  /** The paragraph loop from the paragraph `current` built so far: each
      sentence is appended, and a paragraph that has grown longer than the
      limit is closed; what is left at the end is the last paragraph. */
  function Paragraphs(sentences: seq<string>, current: string): (r: seq<string>)
    ensures Concat(r) == current + Concat(sentences)
    ensures forall k | 0 <= k < |r| - 1 :: |r[k]| > ParagraphLimit
    ensures (forall k | 0 <= k < |sentences| :: sentences[k] != "") ==> forall k | 0 <= k < |r| :: r[k] != ""
    decreases |sentences|
  {
    if |sentences| == 0 then
      if current == "" then [] else [current]
    else
      var grown := current + sentences[0];
      assert current + Concat(sentences) == grown + Concat(sentences[1..]);
      if |grown| > ParagraphLimit then
        var rest := Paragraphs(sentences[1..], "");
        CloseParagraph(grown, sentences[1..], rest);
        [grown] + rest
      else Paragraphs(sentences[1..], grown)
  }

  /** Closing the paragraph `grown` in front of the paragraphs of the
      remaining sentences keeps all three properties of `Paragraphs`. */
  lemma CloseParagraph(grown: string, more: seq<string>, rest: seq<string>)
    requires |grown| > ParagraphLimit
    requires Concat(rest) == "" + Concat(more)
    requires forall k | 0 <= k < |rest| - 1 :: |rest[k]| > ParagraphLimit
    requires (forall k | 0 <= k < |more| :: more[k] != "") ==> forall k | 0 <= k < |rest| :: rest[k] != ""
    ensures Concat([grown] + rest) == grown + Concat(more)
    ensures forall k | 0 <= k < |[grown] + rest| - 1 :: |([grown] + rest)[k]| > ParagraphLimit
    ensures (forall k | 0 <= k < |more| :: more[k] != "") ==>
      forall k | 0 <= k < |[grown] + rest| :: ([grown] + rest)[k] != ""
  {
    var r := [grown] + rest;
    assert r[1..] == rest;
    assert "" + Concat(more) == Concat(more);
  }

  // ---- the greedy paragraph rule, one paragraph at a time ----

  /** The number of leading sentences that make the first paragraph: the
      fewest whose text is longer than the limit, or all of them. */
  function FirstParagraphSize(ss: seq<string>): (n: nat)
    requires |ss| > 0
    ensures 1 <= n <= |ss|
    ensures n < |ss| ==> |Concat(ss[..n])| > ParagraphLimit
    ensures forall m | 1 <= m < n :: |Concat(ss[..m])| <= ParagraphLimit
  {
    SizeFrom(ss, 1)
  }

  function SizeFrom(ss: seq<string>, m: nat): (n: nat)
    requires 1 <= m <= |ss|
    requires forall j | 1 <= j < m :: |Concat(ss[..j])| <= ParagraphLimit
    ensures m <= n <= |ss|
    ensures n < |ss| ==> |Concat(ss[..n])| > ParagraphLimit
    ensures forall j | 1 <= j < n :: |Concat(ss[..j])| <= ParagraphLimit
    decreases |ss| - m
  {
    if m == |ss| || |Concat(ss[..m])| > ParagraphLimit then m else SizeFrom(ss, m + 1)
  }

  /** Paragraphs cut greedily: the first paragraph is the shortest run of
      leading sentences longer than the limit, and the rest of the sentences
      are cut the same way. */
  function GreedyParagraphs(ss: seq<string>): seq<string>
    decreases |ss|
  {
    if |ss| == 0 then []
    else
      var n := FirstParagraphSize(ss);
      [Concat(ss[..n])] + GreedyParagraphs(ss[n..])
  }

  /** Any size meeting the rule is the size `FirstParagraphSize` picks. */
  lemma FirstParagraphSizeIs(ss: seq<string>, n: nat)
    requires 1 <= n <= |ss|
    requires n < |ss| ==> |Concat(ss[..n])| > ParagraphLimit
    requires forall m | 1 <= m < n :: |Concat(ss[..m])| <= ParagraphLimit
    ensures FirstParagraphSize(ss) == n
  {
  }

  lemma ConcatSingle(s: string)
    ensures Concat([s]) == s
  {
    assert [s][1..] == [];
  }

  lemma ConcatPair(a: string, b: string, x: seq<string>)
    ensures Concat([a, b] + x) == a + b + Concat(x)
  {
    assert ([a, b] + x)[1..] == [b] + x;
    assert ([b] + x)[1..] == x;
  }

  /** Merging the first two sentences shifts every prefix by one sentence. */
  lemma MergedPrefix(c: string, s0: string, rest: seq<string>, m: nat)
    requires 1 <= m <= |rest| + 1
    ensures Concat(([c, s0] + rest)[..m + 1]) == Concat(([c + s0] + rest)[..m])
  {
    var x := rest[..m - 1];
    assert ([c, s0] + rest)[..m + 1] == [c, s0] + x;
    assert ([c + s0] + rest)[..m] == [c + s0] + x;
    ConcatPair(c, s0, x);
    assert ([c + s0] + x)[1..] == x;
  }

  /** A first sentence within the limit may be merged into the second
      without changing the greedy paragraphs. */
  lemma {:induction false} MergeFirst(c: string, s0: string, rest: seq<string>)
    requires |c| <= ParagraphLimit
    ensures GreedyParagraphs([c, s0] + rest) == GreedyParagraphs([c + s0] + rest)
  {
    var orig := [c, s0] + rest;
    var merged := [c + s0] + rest;
    var k := FirstParagraphSize(merged);
    forall m | 1 <= m < k + 1 ensures |Concat(orig[..m])| <= ParagraphLimit {
      if m == 1 {
        assert orig[..1] == [c];
        ConcatSingle(c);
      } else {
        MergedPrefix(c, s0, rest, m - 1);
      }
    }
    MergedPrefix(c, s0, rest, k);
    FirstParagraphSizeIs(orig, k + 1);
    assert orig[k + 1..] == merged[k..];
  }

  /** A paragraph that the next sentence pushes over the limit is the first
      greedy paragraph. */
  lemma {:induction false} GreedyClosesFirst(ss: seq<string>, c: string)
    requires |ss| > 0 && |c| <= ParagraphLimit && |c + ss[0]| > ParagraphLimit
    ensures GreedyParagraphs(if c == "" then ss else [c] + ss) == [c + ss[0]] + GreedyParagraphs(ss[1..])
  {
    if c == "" {
      assert c + ss[0] == ss[0];
      assert ss[..1] == [ss[0]];
      ConcatSingle(ss[0]);
      FirstParagraphSizeIs(ss, 1);
    } else {
      var orig := [c] + ss;
      assert orig[..2] == [c, ss[0]] + [];
      ConcatPair(c, ss[0], []);
      assert orig[..1] == [c];
      ConcatSingle(c);
      FirstParagraphSizeIs(orig, 2);
      assert orig[2..] == ss[1..];
      assert Concat(orig[..2]) == c + ss[0];
    }
  }

  /** A paragraph still within the limit absorbs the next sentence. */
  lemma {:induction false} GreedyAbsorbs(ss: seq<string>, c: string)
    requires |ss| > 0 && |c| <= ParagraphLimit
    ensures GreedyParagraphs([c + ss[0]] + ss[1..]) == GreedyParagraphs(if c == "" then ss else [c] + ss)
  {
    if c == "" {
      assert c + ss[0] == ss[0];
      assert [c + ss[0]] + ss[1..] == ss;
    } else {
      assert [c] + ss == [c, ss[0]] + ss[1..];
      MergeFirst(c, ss[0], ss[1..]);
    }
  }

  /** The paragraph loop cuts exactly the greedy paragraphs, the paragraph
      built so far counting as a first sentence. */
  lemma {:induction false} ParagraphsMatchGreedy(ss: seq<string>, c: string)
    requires forall k | 0 <= k < |ss| :: ss[k] != ""
    requires |c| <= ParagraphLimit
    ensures Paragraphs(ss, c) == GreedyParagraphs(if c == "" then ss else [c] + ss)
    decreases |ss|
  {
    if |ss| == 0 {
      if c != "" {
        ConcatSingle(c);
        assert [c][..1] == [c] && [c][1..] == [];
      }
    } else if |c + ss[0]| > ParagraphLimit {
      ParagraphsMatchGreedy(ss[1..], "");
      GreedyClosesFirst(ss, c);
    } else {
      ParagraphsMatchGreedy(ss[1..], c + ss[0]);
      GreedyAbsorbs(ss, c);
    }
  }

  /** `_create_demo_content` (the chapter title it is given is not used):
      the paragraphs, each opened by the indent, separated by a blank line. */
  function CreateDemoContent(text: string): (r: string)
    ensures text == "" ==> r == ""
    ensures r == Join(ContentSpider.IndentAll(GreedyParagraphs(Sentences(text))), "\n\n")
  {
    var ss := Sentences(text);
    assert forall k | 0 <= k < |ss| :: |ss[k]| > 0;
    ParagraphsMatchGreedy(ss, "");
    assert text == "" ==> Sentences(text) == [] by {
      if text == "" {
        assert Split(text, FullStop) == [""];
      }
    }
    Join(ContentSpider.IndentAll(Paragraphs(Sentences(text), "")), "\n\n")
  }

  /** The paragraphs hold all the kept sentences, in order and nothing else;
      every paragraph but the last is longer than the limit; none is empty. */
  lemma DemoParagraphs(text: string)
    ensures var ps := Paragraphs(Sentences(text), "");
      && Concat(ps) == Concat(Sentences(text))
      && (forall k | 0 <= k < |ps| - 1 :: |ps[k]| > ParagraphLimit)
      && (forall k | 0 <= k < |ps| :: ps[k] != "")
      && CreateDemoContent(text) == Join(ContentSpider.IndentAll(ps), "\n\n")
      && ps == GreedyParagraphs(Sentences(text))
  {
    var ss := Sentences(text);
    assert forall k | 0 <= k < |ss| :: |ss[k]| > 0;
    ParagraphsMatchGreedy(ss, "");
  }

  // ---- the chapters of the demo ----

  /** One processed chapter: its position, title, text and url. */
  datatype ChapterData = ChapterData(index: nat, title: string, content: string, url: string)

  const DemoChapterCount: nat := 3

  /** `process_demo_content`: when the sample text is not empty, the first
      three chapters (or all, if fewer) get the demo text, numbered from 0;
      otherwise none is processed. */
  function DemoChapters(chapters: seq<CatalogSpider.Chapter>, text: string): (r: seq<ChapterData>)
    ensures text == "" ==> r == []
    ensures text != "" ==> |r| == if |chapters| < DemoChapterCount then |chapters| else DemoChapterCount
    ensures forall i | 0 <= i < |r| ::
      r[i] == ChapterData(i, chapters[i].title, CreateDemoContent(text), chapters[i].url)
  {
    if text == "" then []
    else
      var n := if |chapters| < DemoChapterCount then |chapters| else DemoChapterCount;
      seq(n, i requires 0 <= i < n => ChapterData(i, chapters[i].title, CreateDemoContent(text), chapters[i].url))
  }

  // ---- _write_to_file ----

  function Repeat(c: char, n: nat): (r: string)
    ensures |r| == n && forall i | 0 <= i < n :: r[i] == c
  {
    if n == 0 then "" else [c] + Repeat(c, n - 1)
  }

  /** The book's header: title, author, chapter count, source url and a rule
      of fifty '='. An author the catalog recorded as null prints as
      "None". */
  function Header(title: string, author: Option<string>, total: nat, source: string): string {
    var who := if author.Some? then author.value else "None";
    title + "\n" + "作者: " + who + "\n" + "总章节数: " + NatToString(total) + "\n"
      + "来源: " + source + "\n" + Repeat('=', 50) + "\n\n"
  }

  /** One chapter in the file: its title, a blank line, its text. */
  function Block(c: ChapterData): string {
    c.title + "\n\n" + c.content
  }

  /** The chapter loop as written, from chapter `i` on: each block, followed
      by the separator unless it is the last chapter. */
  function WrittenFrom(blocks: seq<string>, i: nat): string
    decreases |blocks| - i
  {
    if i >= |blocks| then ""
    else blocks[i] + (if i < |blocks| - 1 then ChapterSeparator else "") + WrittenFrom(blocks, i + 1)
  }

  /** The loop writes the blocks joined by the separator: it comes between
      consecutive chapters and never after the last. */
  lemma {:induction false} WrittenIsJoin(blocks: seq<string>, i: nat)
    requires i <= |blocks|
    ensures WrittenFrom(blocks, i) == Join(blocks[i..], ChapterSeparator)
    decreases |blocks| - i
  {
    if i < |blocks| {
      WrittenIsJoin(blocks, i + 1);
      assert blocks[i..][1..] == blocks[i + 1..];
    }
  }

  function Blocks(chapters: seq<ChapterData>): (r: seq<string>)
    ensures |r| == |chapters| && forall i | 0 <= i < |r| :: r[i] == Block(chapters[i])
  {
    seq(|chapters|, i requires 0 <= i < |chapters| => Block(chapters[i]))
  }

  /** The whole file `_write_to_file` produces. */
  function WriteFile(title: string, author: Option<string>, total: nat, source: string,
                     chapters: seq<ChapterData>): (r: string)
    ensures r == Header(title, author, total, source) + Join(Blocks(chapters), ChapterSeparator)
  {
    WrittenIsJoin(Blocks(chapters), 0);
    assert Blocks(chapters)[0..] == Blocks(chapters);
    Header(title, author, total, source) + WrittenFrom(Blocks(chapters), 0)
  }

  /** The file ends with the last chapter's block: no separator follows it. */
  lemma {:induction false} JoinEndsWithLast(parts: seq<string>, sep: string)
    requires |parts| >= 1
    ensures EndsWith(Join(parts, sep), parts[|parts| - 1])
    decreases |parts|
  {
    if |parts| > 1 {
      JoinEndsWithLast(parts[1..], sep);
      var rest := Join(parts[1..], sep);
      var last := parts[|parts| - 1];
      assert Join(parts, sep) == (parts[0] + sep) + rest;
      assert ((parts[0] + sep) + rest)[|(parts[0] + sep) + rest| - |last|..] == rest[|rest| - |last|..];
    }
  }

  /** The file ends with the last chapter's block: no separator after it. */
  lemma FileEndsWithLastChapter(title: string, author: Option<string>, total: nat, source: string,
                                chapters: seq<ChapterData>)
    requires |chapters| >= 1
    ensures EndsWith(WriteFile(title, author, total, source, chapters), Block(chapters[|chapters| - 1]))
  {
    var bs := Blocks(chapters);
    JoinEndsWithLast(bs, ChapterSeparator);
    var h := Header(title, author, total, source);
    var j := Join(bs, ChapterSeparator);
    var last := bs[|bs| - 1];
    assert (h + j)[|h + j| - |last|..] == j[|j| - |last|..];
  }
}
