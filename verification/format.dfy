/** The client's pure formatters: chapter-range validation, text truncation,
    duration rendering and download file names. */
module Format {
  import opened Wrappers
  import opened Text
  import opened Seqs

  // ---- validateChapterRange ----

  datatype RangeCheck = RangeCheck(valid: bool, message: Option<string>)

  const StartTooSmallMessage: string := "起始章节不能小于1"
  const StartAfterEndMessage: string := "起始章节不能大于结束章节"

  function EndTooLargeMessage(total: int): string {
    "结束章节不能大于总章节数(" + IntToString(total) + ")"
  }

  /** `validateChapterRange`: the range is valid exactly when
      `1 <= start <= end <= total`; otherwise the first failing rule, in the
      order start, end, order, names the problem. */
  function ValidateChapterRange(start: int, end: int, total: int): (r: RangeCheck)
    ensures r.valid <==> 1 <= start <= end <= total
    ensures r.valid <==> r.message.None?
    ensures start < 1 ==> r.message == Some(StartTooSmallMessage)
    ensures 1 <= start && total < end ==> r.message == Some(EndTooLargeMessage(total))
    ensures 1 <= start && end <= total && end < start ==> r.message == Some(StartAfterEndMessage)
  {
    if start < 1 then RangeCheck(false, Some(StartTooSmallMessage))
    else if end > total then RangeCheck(false, Some(EndTooLargeMessage(total)))
    else if start > end then RangeCheck(false, Some(StartAfterEndMessage))
    else RangeCheck(true, None)
  }

  /** The message of any range names the first rule it breaks and no other:
      each message appears exactly when its rule is the first to fail. */
  lemma RangeMessageIdentifiesRule(start: int, end: int, total: int)
    ensures var m := ValidateChapterRange(start, end, total).message;
      && (m == Some(StartTooSmallMessage) <==> start < 1)
      && (m == Some(EndTooLargeMessage(total)) <==> 1 <= start && total < end)
      && (m == Some(StartAfterEndMessage) <==> 1 <= start && end <= total && end < start)
  {
    assert EndTooLargeMessage(total)[0] == '结';
    assert StartTooSmallMessage[6] != StartAfterEndMessage[6];
  }

  // ---- truncateText ----

  const DefaultEllipsis: string := "..."

  /** `truncateText`: a text within the limit is kept; a longer one is cut to
      `length - |ellipsis|` characters (by `slice`, so a negative bound counts
      from the end) and the ellipsis appended. */
  function TruncateText(text: string, length: int, ellipsis: Option<string>): (r: string)
    ensures |text| <= length ==> r == text
    ensures var e := ellipsis.GetOr(DefaultEllipsis);
      length < |text| && |e| <= length ==>
        |r| == length && EndsWith(r, e) && StartsWith(text, r[..length - |e|])
    ensures var e := ellipsis.GetOr(DefaultEllipsis);
      length < |text| && length < |e| ==>
        r == text[..if |text| + length - |e| < 0 then 0 else |text| + length - |e|] + e
  {
    var e := ellipsis.GetOr(DefaultEllipsis);
    if |text| <= length then text
    else
      var r := JsSlice(text, 0, length - |e|) + e;
      assert |e| <= length ==> r[..length - |e|] == text[..length - |e|];
      r
  }

  /** With room for the ellipsis, truncating twice is truncating once. */
  lemma TruncateIdempotent(text: string, length: int, ellipsis: Option<string>)
    requires |ellipsis.GetOr(DefaultEllipsis)| <= length
    ensures TruncateText(TruncateText(text, length, ellipsis), length, ellipsis) == TruncateText(text, length, ellipsis)
  {
  }

  /** With a limit shorter than the ellipsis, the negative slice bound counts
      from the end and the result is longer than both limit and text. */
  lemma TruncateBelowEllipsisGrows()
    ensures TruncateText("abcdef", 2, None) == "abcde..."
  {
    assert JsSlice("abcdef", 0, -1) == "abcde";
  }

  // ---- formatDuration ----

  /** The parts `formatDuration` shows: seconds; minutes and seconds; hours
      and minutes. */
  datatype Duration = Secs(s: nat) | MinSecs(m: nat, s: nat) | HourMins(h: nat, m: nat)

  /** The number of seconds a duration denotes. */
  function Seconds(d: Duration): nat {
    match d
    case Secs(s) => s
    case MinSecs(m, s) => m * 60 + s
    case HourMins(h, m) => h * 3600 + m * 60
  }

  /** Split by the thresholds 60 and 3600; minute and second parts stay below
      60, and only the hours form drops the seconds below a whole minute. */
  function Components(seconds: nat): (d: Duration)
    ensures seconds < 60 <==> d.Secs?
    ensures 60 <= seconds < 3600 <==> d.MinSecs?
    ensures d.MinSecs? ==> 1 <= d.m < 60 && d.s < 60
    ensures d.HourMins? ==> 1 <= d.h && d.m < 60
    ensures Seconds(d) == if seconds < 3600 then seconds else seconds - seconds % 60
  {
    if seconds < 60 then Secs(seconds)
    else if seconds < 3600 then MinSecs(seconds / 60, seconds % 60)
    else
      var h := seconds / 3600;
      var m := (seconds % 3600) / 60;
      assert seconds == h * 3600 + m * 60 + seconds % 60;
      HourMins(h, m)
  }

  function Render(d: Duration): string {
    match d
    case Secs(s) => NatToString(s) + "秒"
    case MinSecs(m, s) => NatToString(m) + "分" + NatToString(s) + "秒"
    case HourMins(h, m) => NatToString(h) + "小时" + NatToString(m) + "分钟"
  }

  /** `formatDuration` for a whole number of seconds. */
  function FormatDuration(seconds: nat): (r: string)
    ensures seconds < 3600 <==> EndsWith(r, "秒")
    ensures seconds >= 3600 <==> EndsWith(r, "分钟")
    ensures ParseDuration(r) == Some(if seconds < 3600 then seconds else seconds - seconds % 60)
    ensures seconds < 60 ==> r == NatToString(seconds) + "秒"
    ensures 60 <= seconds < 3600 ==> r == NatToString(seconds / 60) + "分" + NatToString(seconds % 60) + "秒"
    ensures 3600 <= seconds ==> r == NatToString(seconds / 3600) + "小时" + NatToString(seconds % 3600 / 60) + "分钟"
  {
    var d := Components(seconds);
    RenderRoundTrip(d);
    var r := Render(d);
    assert EndsWith(r, "秒") ==> r[|r| - 1] == '秒';
    assert EndsWith(r, "分钟") ==> r[|r| - 1] == '钟';
    r
  }

  /** The index of the first `c` in `s`, or `|s|` when there is none. */
  function FirstIndex(s: string, c: char): (k: nat)
    ensures k <= |s|
    ensures forall i | 0 <= i < k :: s[i] != c
    ensures k < |s| ==> s[k] == c
  {
    if |s| == 0 then 0
    else if s[0] == c then 0
    else FirstIndex(s[1..], c) + 1
  }

  /** Digits are followed by a non-digit marker: the marker is found right
      after them. */
  lemma FirstIndexAfterDigits(a: string, c: char, b: string)
    requires AllDigits(a) && !IsDigit(c)
    ensures FirstIndex(a + [c] + b, c) == |a|
  {
    var s := a + [c] + b;
    assert s[|a|] == c;
    assert forall i | 0 <= i < |a| :: s[i] == a[i];
  }

  /** Reads a rendered duration back as a number of seconds. */
  function ParseDuration(r: string): Option<nat> {
    if EndsWith(r, "秒") then ParseSecondsForm(r[..|r| - 1])
    else if EndsWith(r, "分钟") then ParseHoursForm(r[..|r| - 2])
    else None
  }

  /** `{s}` or `{m}分{s}`, the unit '秒' removed. */
  function ParseSecondsForm(body: string): Option<nat> {
    var k := FirstIndex(body, '分');
    if k == |body| then
      if body != "" && AllDigits(body) then Some(DecimalValue(body)) else None
    else
      var a := body[..k];
      var b := body[k + 1..];
      if a != "" && b != "" && AllDigits(a) && AllDigits(b) then Some(DecimalValue(a) * 60 + DecimalValue(b)) else None
  }

  /** `{h}小时{m}`, the unit '分钟' removed. */
  function ParseHoursForm(body: string): Option<nat> {
    var k := FirstIndex(body, '小');
    if k + 1 < |body| && body[k + 1] == '时' then
      var a := body[..k];
      var b := body[k + 2..];
      if a != "" && b != "" && AllDigits(a) && AllDigits(b) then Some(DecimalValue(a) * 3600 + DecimalValue(b) * 60) else None
    else None
  }

  /** Rendering and reading back gives the duration's seconds. */
  lemma RenderRoundTrip(d: Duration)
    ensures ParseDuration(Render(d)) == Some(Seconds(d))
  {
    if d.Secs? {
      SecsRoundTrip(d);
    } else if d.MinSecs? {
      MinSecsRoundTrip(d);
    } else {
      HourMinsRoundTrip(d);
    }
  }

  lemma SecsRoundTrip(d: Duration)
    requires d.Secs?
    ensures ParseDuration(Render(d)) == Some(Seconds(d))
  {
    var a := NatToString(d.s);
    var r := a + "秒";
    assert r[..|r| - 1] == a;
    assert FirstIndex(a, '分') == |a|;
  }

  lemma MinSecsRoundTrip(d: Duration)
    requires d.MinSecs?
    ensures ParseDuration(Render(d)) == Some(Seconds(d))
  {
    var a := NatToString(d.m);
    var b := NatToString(d.s);
    var r := a + "分" + b + "秒";
    var body := a + ['分'] + b;
    assert r[..|r| - 1] == body;
    FirstIndexAfterDigits(a, '分', b);
    assert body[..|a|] == a && body[|a| + 1..] == b;
  }

  lemma HourMinsRoundTrip(d: Duration)
    requires d.HourMins?
    ensures ParseDuration(Render(d)) == Some(Seconds(d))
  {
    var a := NatToString(d.h);
    var b := NatToString(d.m);
    var r := a + "小时" + b + "分钟";
    var body := a + ['小'] + (['时'] + b);
    assert !EndsWith(r, "秒") by { assert r[|r| - 1] == '钟'; }
    assert EndsWith(r, "分钟") by { assert r[|r| - 2..] == "分钟"; }
    assert r[..|r| - 2] == body;
    HoursFormOf(body, a, b);
  }

  lemma HoursFormOf(body: string, a: string, b: string)
    requires a != "" && b != "" && AllDigits(a) && AllDigits(b)
    requires body == a + ['小'] + (['时'] + b)
    ensures ParseHoursForm(body) == Some(DecimalValue(a) * 3600 + DecimalValue(b) * 60)
  {
    FirstIndexAfterDigits(a, '小', ['时'] + b);
    var k := FirstIndex(body, '小');
    assert k == |a| && body[k + 1] == '时';
    assert body[..k] == a && body[k + 2..] == b;
  }

  // ---- generateFileName ----

  /** The characters Windows does not allow in file names. */
  predicate IsForbiddenFileChar(c: char) {
    c == '<' || c == '>' || c == ':' || c == '"' || c == '/' || c == '\\' || c == '|' || c == '?' || c == '*'
  }

  predicate KeepFileChar(c: char) {
    !IsForbiddenFileChar(c)
  }

  /** A character a cleaned name may hold. */
  predicate SafeFileChar(c: char) {
    !IsForbiddenFileChar(c) && !JsIsSpace(c)
  }

  /** `replace(/\s+/g, '_')`: each maximal run of white space becomes one
      underscore. */
  function CollapseSpaces(s: string): (r: string)
    ensures Collapsed(s, r)
    ensures r == ScanSpaces(s, false)
    decreases |s|
  {
    if |s| == 0 then ""
    else if JsIsSpace(s[0]) then
      var rest := TrimStart(s[1..], JsIsSpace);
      var tail := CollapseSpaces(rest);
      SpaceRunStep(s, rest, tail);
      ScanSkipsRun(s[1..]);
      ScanAtRunEnd(rest);
      "_" + tail
    else
      var tail := CollapseSpaces(s[1..]);
      KeptCharStep(s, tail);
      [s[0]] + tail
  }

  /** The same replacement read one character at a time: a white-space
      character writes '_' unless the previous one was white space too, and
      every other character is copied. */
  function ScanSpaces(s: string, inRun: bool): string {
    if |s| == 0 then ""
    else if JsIsSpace(s[0]) then (if inRun then "" else "_") + ScanSpaces(s[1..], true)
    else [s[0]] + ScanSpaces(s[1..], false)
  }

  /** Inside a run, the rest of the run writes nothing. */
  lemma {:induction false} ScanSkipsRun(s: string)
    ensures ScanSpaces(s, true) == ScanSpaces(TrimStart(s, JsIsSpace), true)
    decreases |s|
  {
    if |s| > 0 && JsIsSpace(s[0]) {
      ScanSkipsRun(s[1..]);
    }
  }

  /** Where a run has ended, having been in it makes no difference. */
  lemma ScanAtRunEnd(s: string)
    requires |s| == 0 || !JsIsSpace(s[0])
    ensures ScanSpaces(s, true) == ScanSpaces(s, false)
  {
  }

  /** `r` can be what collapsing `s` gives: no longer, free of white space,
      made of underscores and characters of `s`, and `s` itself when `s` has
      no white space. */
  predicate Collapsed(s: string, r: string) {
    && |r| <= |s|
    && (forall i | 0 <= i < |r| :: !JsIsSpace(r[i]) && (r[i] == '_' || r[i] in s))
    && ((forall i | 0 <= i < |s| :: !JsIsSpace(s[i])) ==> r == s)
  }

  /** A white-space run at the front becomes one underscore. */
  lemma SpaceRunStep(s: string, rest: string, tail: string)
    requires |s| > 0 && JsIsSpace(s[0])
    requires |rest| <= |s| - 1 && rest == s[1..][|s| - 1 - |rest|..]
    requires Collapsed(rest, tail)
    ensures Collapsed(s, "_" + tail)
  {
    forall i | 0 <= i < |rest| ensures rest[i] in s {
      assert rest[i] == s[|s| - |rest| + i];
    }
  }

  /** A character that is not white space is kept. */
  lemma KeptCharStep(s: string, tail: string)
    requires |s| > 0 && !JsIsSpace(s[0])
    requires Collapsed(s[1..], tail)
    ensures Collapsed(s, [s[0]] + tail)
  {
    forall i | 0 <= i < |s[1..]| ensures s[1..][i] in s {
      assert s[1..][i] == s[i + 1];
    }
    if forall i | 0 <= i < |s| :: !JsIsSpace(s[i]) {
      assert forall i | 0 <= i < |s[1..]| :: !JsIsSpace(s[1..][i]);
      assert [s[0]] + s[1..] == s;
    }
  }

  /** Trimming a string with no white space changes nothing. */
  lemma TrimWithoutSpace(s: string)
    requires forall i | 0 <= i < |s| :: !JsIsSpace(s[i])
    ensures JsTrim(s) == s
  {
    assert TrimStart(s, JsIsSpace) == s;
    assert TrimEnd(s, JsIsSpace) == s;
  }

  /** The collapsed kept characters are all safe, no more than the name
      had, and trimming them changes nothing. */
  lemma CollapsedKeepsFileChars(bookName: string)
    ensures var c := CollapseSpaces(Filter(bookName, KeepFileChar));
      && |c| <= |bookName|
      && (forall i | 0 <= i < |c| :: SafeFileChar(c[i]))
      && JsTrim(c) == c
  {
    var kept := Filter(bookName, KeepFileChar);
    var c := CollapseSpaces(kept);
    assert Collapsed(kept, c);
    forall i | 0 <= i < |c| ensures SafeFileChar(c[i]) {
      if c[i] != '_' {
        assert c[i] in kept;
      }
    }
    TrimWithoutSpace(c);
  }

  /** The cleaned book name: forbidden characters removed, white-space runs
      collapsed to '_', then trimmed (which then changes nothing). */
  function CleanName(bookName: string): (r: string)
    ensures |r| <= |bookName|
    ensures forall i | 0 <= i < |r| :: SafeFileChar(r[i])
    ensures r == CollapseSpaces(Filter(bookName, KeepFileChar))
  {
    var collapsed := CollapseSpaces(Filter(bookName, KeepFileChar));
    CollapsedKeepsFileChars(bookName);
    JsTrim(collapsed)
  }

  /** `generateFileName` without a timestamp: the cleaned name, a dot and the
      format ('txt' when none is given). */
  function GenerateFileName(bookName: string, format: Option<string>): (r: string)
    ensures var f := format.GetOr("txt");
      && EndsWith(r, "." + f)
      && forall i | 0 <= i < |r| - |f| - 1 :: SafeFileChar(r[i])
    ensures r == CleanName(bookName) + "." + format.GetOr("txt")
  {
    var name := CleanName(bookName);
    var f := format.GetOr("txt");
    var r := name + ("." + f);
    assert r[|name|..] == "." + f;
    assert forall i | 0 <= i < |name| :: r[i] == name[i];
    r
  }

  /** Cleaning a cleaned name changes nothing. */
  lemma CleanNameIdempotent(bookName: string)
    ensures CleanName(CleanName(bookName)) == CleanName(bookName)
  {
    var n := CleanName(bookName);
    FilterAll(n, KeepFileChar);
  }

  /** A generated file name is stable: its name part, cleaned again, is
      itself, so regenerating from it gives the same file name. */
  lemma GenerateFileNameStable(bookName: string, format: Option<string>)
    ensures var r := GenerateFileName(bookName, format);
      var name := r[..|r| - |format.GetOr("txt")| - 1];
      && name == CleanName(bookName)
      && GenerateFileName(name, format) == r
  {
    var r := GenerateFileName(bookName, format);
    var n := CleanName(bookName);
    assert r[..|n|] == n;
    CleanNameIdempotent(bookName);
  }
}
