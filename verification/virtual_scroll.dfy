/** `useVirtualScroll`: which rows of a long list of fixed-height rows are
    rendered for a scroll position, with `buffer` extra rows on each side.
    Heights and positions are whole pixels; the row height is positive. */
module VirtualScroll {
  import opened Seqs

  datatype ScrollOptions = ScrollOptions(itemHeight: nat, buffer: nat, smoothScroll: bool)

  datatype ScrollState<T> = ScrollState(items: seq<T>, scrollTop: nat, containerHeight: nat)

  /** `useChapterVirtualScroll`'s settings: 48 px rows, a 600 px container,
      ten rows of buffer, smooth scrolling. */
  const ChapterOptions: ScrollOptions := ScrollOptions(48, 10, true)
  const ChapterContainerHeight: nat := 600

  predicate ValidOptions(o: ScrollOptions) {
    o.itemHeight > 0
  }

  /** `Math.ceil(a / b)` for naturals. */
  function CeilDiv(a: nat, b: nat): (q: nat)
    requires b > 0
    ensures (q - 1) * b < a <= q * b || (a == 0 && q == 0)
  {
    (a + b - 1) / b
  }

  /** `totalHeight`. */
  function TotalHeight<T>(o: ScrollOptions, s: ScrollState<T>): (h: nat)
    ensures o.itemHeight > 0 ==> h / o.itemHeight == |s.items|
    ensures h == |s.items| * o.itemHeight
  {
    var h := |s.items| * o.itemHeight;
    assert o.itemHeight > 0 ==> h / o.itemHeight == |s.items| by {
      if o.itemHeight > 0 {
        MulDivCancel(|s.items|, o.itemHeight);
      }
    }
    h
  }

  lemma MulDivCancel(a: nat, b: nat)
    requires b > 0
    ensures (a * b) / b == a
  {
    var q := (a * b) / b;
    var r := (a * b) % b;
    assert a * b == q * b + r;
    assert (a - q) * b == r;
    SmallMultipleIsZero(a - q, b);
  }

  lemma SmallMultipleIsZero(x: int, b: int)
    requires b > 0 && 0 <= x * b < b
    ensures x == 0
  {
    assert x >= 1 ==> x * b >= b;
    assert x <= -1 ==> x * b <= -b;
  }

  /** The first row the viewport touches. */
  function FirstVisible<T>(o: ScrollOptions, s: ScrollState<T>): (i: nat)
    requires ValidOptions(o)
    ensures i * o.itemHeight <= s.scrollTop < (i + 1) * o.itemHeight
  {
    s.scrollTop / o.itemHeight
  }

  /** `visibleCount`: rows needed to fill the container. */
  function VisibleCount<T>(o: ScrollOptions, s: ScrollState<T>): nat
    requires ValidOptions(o)
  {
    CeilDiv(s.containerHeight, o.itemHeight)
  }

  /** `startIndex`: `buffer` rows before the first visible one, not below 0. */
  function StartIndex<T>(o: ScrollOptions, s: ScrollState<T>): (i: nat)
    requires ValidOptions(o)
    ensures i <= FirstVisible(o, s)
    ensures FirstVisible(o, s) > o.buffer ==> i + o.buffer == FirstVisible(o, s)
    ensures FirstVisible(o, s) <= o.buffer ==> i == 0
  {
    var first := FirstVisible(o, s);
    if first > o.buffer then first - o.buffer else 0
  }

  /** `endIndex`: the start plus the visible rows and twice the buffer, not
      past the last row (so -1 for an empty list). */
  function EndIndex<T>(o: ScrollOptions, s: ScrollState<T>): (e: int)
    requires ValidOptions(o)
    ensures e <= |s.items| - 1
    ensures e <= StartIndex(o, s) + VisibleCount(o, s) + 2 * o.buffer
    ensures e == |s.items| - 1 || e == StartIndex(o, s) + VisibleCount(o, s) + 2 * o.buffer
  {
    var end := StartIndex(o, s) + VisibleCount(o, s) + 2 * o.buffer;
    if |s.items| - 1 < end then |s.items| - 1 else end
  }

  /** `visibleItems`: the rows from the start to the end index inclusive. */
  function VisibleItems<T>(o: ScrollOptions, s: ScrollState<T>): (v: seq<T>)
    requires ValidOptions(o)
    ensures StartIndex(o, s) <= EndIndex(o, s) ==>
      v == s.items[StartIndex(o, s)..EndIndex(o, s) + 1]
    ensures EndIndex(o, s) < StartIndex(o, s) ==> v == []
    ensures |s.items| == 0 ==> v == []
  {
    JsSlice(s.items, StartIndex(o, s), EndIndex(o, s) + 1)
  }

  /** Every row that is in the list and meets the viewport is rendered. */
  lemma ViewportCovered<T>(o: ScrollOptions, s: ScrollState<T>, i: nat)
    requires ValidOptions(o)
    requires i < |s.items|
    requires FirstVisible(o, s) <= i < FirstVisible(o, s) + VisibleCount(o, s)
    ensures StartIndex(o, s) <= i <= EndIndex(o, s)
    ensures VisibleItems(o, s)[i - StartIndex(o, s)] == s.items[i]
  {
  }

  /** `handleScroll`: only the position changes. */
  function HandleScroll<T>(s: ScrollState<T>, scrollTop: nat): (r: ScrollState<T>)
    ensures r.scrollTop == scrollTop && r.items == s.items && r.containerHeight == s.containerHeight
  {
    s.(scrollTop := scrollTop)
  }

  /** `setItems`: new rows, scrolled back to the top. */
  function SetItems<T>(s: ScrollState<T>, items: seq<T>): (r: ScrollState<T>)
    ensures r.items == items && r.scrollTop == 0 && r.containerHeight == s.containerHeight
  {
    s.(items := items, scrollTop := 0)
  }

  /** `updateContainerHeight`. */
  function UpdateContainerHeight<T>(s: ScrollState<T>, height: nat): (r: ScrollState<T>)
    ensures r.containerHeight == height && r.items == s.items && r.scrollTop == s.scrollTop
  {
    s.(containerHeight := height)
  }

  datatype ScrollBehavior = Smooth | Auto

  datatype ScrollTarget = ScrollTarget(top: int, behavior: ScrollBehavior)

  /** The row `scrollToIndex` aims at: the index clamped into the list, 0 for
      an empty list. */
  function TargetIndex(index: int, length: nat): (t: nat)
    ensures length > 0 ==> t < length
    ensures length == 0 ==> t == 0
    ensures 0 <= index < length ==> t == index
    ensures index < 0 ==> t == 0
    ensures length > 0 && index >= length ==> t == length - 1
  {
    var m := if index < length - 1 then index else length - 1;
    if m > 0 then m else 0
  }

  /** `scrollToIndex`: the top of the target row and the configured behaviour. */
  function ScrollToIndex<T>(o: ScrollOptions, s: ScrollState<T>, index: int): (r: ScrollTarget)
    ensures r.top == TargetIndex(index, |s.items|) * o.itemHeight
    ensures r.behavior == if o.smoothScroll then Smooth else Auto
  {
    ScrollTarget(TargetIndex(index, |s.items|) * o.itemHeight, if o.smoothScroll then Smooth else Auto)
  }

  /** After scrolling to where `scrollToIndex` points, the target row is rendered. */
  lemma ScrollToIndexShowsTarget<T>(o: ScrollOptions, s: ScrollState<T>, index: int)
    requires ValidOptions(o) && |s.items| > 0
    ensures var t := TargetIndex(index, |s.items|);
      var moved := HandleScroll(s, ScrollToIndex(o, s, index).top as nat);
      StartIndex(o, moved) <= t <= EndIndex(o, moved)
  {
    var t := TargetIndex(index, |s.items|);
    var moved := HandleScroll(s, t * o.itemHeight);
    MulDivCancel(t, o.itemHeight);
    assert FirstVisible(o, moved) == t;
  }

  datatype ItemStyle = ItemStyle(top: int, height: nat)

  /** `getItemStyle`: the `index`-th rendered row sits at its row's offset. */
  function GetItemStyle<T>(o: ScrollOptions, s: ScrollState<T>, index: int): (r: ItemStyle)
    requires ValidOptions(o)
    ensures r.top == (StartIndex(o, s) + index) * o.itemHeight && r.height == o.itemHeight
  {
    ItemStyle((StartIndex(o, s) + index) * o.itemHeight, o.itemHeight)
  }

  /** The offset of the rendered block (`translateY`). */
  function OffsetTop<T>(o: ScrollOptions, s: ScrollState<T>): int
    requires ValidOptions(o)
  {
    StartIndex(o, s) * o.itemHeight
  }

  /** Consecutive rendered rows are one row height apart, starting at the
      block's offset, and each sits where its list index puts it. */
  lemma ItemStylesLineUp<T>(o: ScrollOptions, s: ScrollState<T>, k: nat)
    requires ValidOptions(o)
    ensures GetItemStyle(o, s, 0).top == OffsetTop(o, s)
    ensures GetItemStyle(o, s, k + 1).top == GetItemStyle(o, s, k).top + o.itemHeight
  {
  }

  /** Every rendered row of the list lies inside the scroll area whose height
      `totalHeight` gives. */
  lemma RowsFitTotalHeight<T>(o: ScrollOptions, s: ScrollState<T>, k: nat)
    requires ValidOptions(o) && StartIndex(o, s) + k < |s.items|
    ensures 0 <= GetItemStyle(o, s, k).top
    ensures GetItemStyle(o, s, k).top + GetItemStyle(o, s, k).height <= TotalHeight(o, s)
  {
    var j := StartIndex(o, s) + k;
    assert (j + 1) * o.itemHeight <= |s.items| * o.itemHeight by {
      MulMonotone(j + 1, |s.items|, o.itemHeight);
    }
  }

  lemma MulMonotone(a: nat, b: nat, c: nat)
    requires a <= b
    ensures a * c <= b * c
  {
  }

  /** `jumpToChapter`: chapter numbers count from 1. */
  function JumpToChapter<T>(o: ScrollOptions, s: ScrollState<T>, chapterNumber: int): (r: ScrollTarget)
    ensures 1 <= chapterNumber <= |s.items| ==> r.top == (chapterNumber - 1) * o.itemHeight
    ensures r == ScrollToIndex(o, s, chapterNumber - 1)
  {
    ScrollToIndex(o, s, chapterNumber - 1)
  }
}
