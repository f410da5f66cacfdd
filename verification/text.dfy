/** String helpers shared by the model: the whitespace sets of Python's
    `str.strip` and JavaScript's `String.prototype.trim`, trimming, prefix
    and substring tests, `join`/`split` on a separator, and the decimal and
    hexadecimal renderings of `str(n)`, `${n}` and `n.toString(16)`. */
module Text {
  import opened Wrappers

  /** Characters Python's `str.isspace` accepts (and `str.strip` removes). */
  predicate PyIsSpace(c: char) {
    || c == ' ' || ('\U{0009}' <= c <= '\U{000D}')
    || ('\U{001C}' <= c <= '\U{001F}')
    || c == '\U{0085}' || c == '\U{00A0}' || c == '\U{1680}'
    || ('\U{2000}' <= c <= '\U{200A}')
    || c == '\U{2028}' || c == '\U{2029}' || c == '\U{202F}' || c == '\U{205F}'
    || c == '\U{3000}'
  }

  /** Characters JavaScript's `trim` and the regex class `\s` accept. */
  predicate JsIsSpace(c: char) {
    || c == ' ' || ('\U{0009}' <= c <= '\U{000D}')
    || c == '\U{00A0}' || c == '\U{1680}'
    || ('\U{2000}' <= c <= '\U{200A}')
    || c == '\U{2028}' || c == '\U{2029}' || c == '\U{202F}' || c == '\U{205F}'
    || c == '\U{3000}' || c == '\U{FEFF}'
  }

  /** Drops the leading characters satisfying `sp`. */
  function TrimStart(s: string, sp: char -> bool): (r: string)
    ensures |r| <= |s| && r == s[|s| - |r|..]
    ensures forall i | 0 <= i < |s| - |r| :: sp(s[i])
    ensures |r| > 0 ==> !sp(r[0])
  {
    if |s| > 0 && sp(s[0]) then
      var r := TrimStart(s[1..], sp);
      TrimStartStep(s, sp, r);
      r
    else s
  }

  /** A leading character satisfying `sp` joins the trimmed prefix. */
  lemma TrimStartStep(s: string, sp: char -> bool, r: string)
    requires |s| > 0 && sp(s[0])
    requires |r| <= |s| - 1 && r == s[1..][|s| - 1 - |r|..]
    requires forall i | 0 <= i < |s| - 1 - |r| :: sp(s[1..][i])
    ensures r == s[|s| - |r|..]
    ensures forall i | 0 <= i < |s| - |r| :: sp(s[i])
  {
    forall i | 0 <= i < |s| - |r|
      ensures sp(s[i])
    {
      if i > 0 {
        assert s[i] == s[1..][i - 1];
      }
    }
  }

  /** Drops the trailing characters satisfying `sp`. */
  function TrimEnd(s: string, sp: char -> bool): (r: string)
    ensures |r| <= |s| && r == s[..|r|]
    ensures forall i | |r| <= i < |s| :: sp(s[i])
    ensures |r| > 0 ==> !sp(r[|r| - 1])
  {
    if |s| > 0 && sp(s[|s| - 1]) then
      var r := TrimEnd(s[..|s| - 1], sp);
      assert s[..|s| - 1][..|r|] == s[..|r|];
      r
    else s
  }

  /** `r` is `s` with the first `a` characters and some trailing ones cut,
      and every character cut satisfies `sp`. */
  predicate CutAt(s: string, r: string, sp: char -> bool, a: int) {
    && 0 <= a <= |s| - |r|
    && r == s[a..a + |r|]
    && (forall i | 0 <= i < a :: sp(s[i]))
    && (forall i | a + |r| <= i < |s| :: sp(s[i]))
  }

  /** `r` is `s` with a run of `sp` characters cut from each end. */
  ghost predicate CutOf(s: string, r: string, sp: char -> bool) {
    exists a :: CutAt(s, r, sp, a)
  }

  /** Drops the characters satisfying `sp` at both ends: the result is an
      infix of `s` that neither starts nor ends with such a character, what
      is cut on either side consists of such characters only, and the result
      is empty exactly when every character of `s` satisfies `sp`. */
  function Trim(s: string, sp: char -> bool): (r: string)
    ensures |r| <= |s|
    ensures |r| > 0 ==> !sp(r[0]) && !sp(r[|r| - 1])
    ensures r == "" <==> forall i | 0 <= i < |s| :: sp(s[i])
    ensures Contains(s, r)
    ensures CutOf(s, r, sp)
  {
    var a := TrimStart(s, sp);
    var r := TrimEnd(a, sp);
    TrimCutAt(s, a, r, sp);
    r
  }

  /** A prefix cut of a suffix cut, each removing only `sp` characters and
      each stopping at a character outside `sp`. */
  lemma TrimCutAt(s: string, a: string, r: string, sp: char -> bool)
    requires |a| <= |s| && a == s[|s| - |a|..] && forall i | 0 <= i < |s| - |a| :: sp(s[i])
    requires |a| > 0 ==> !sp(a[0])
    requires |r| <= |a| && r == a[..|r|] && forall i | |r| <= i < |a| :: sp(a[i])
    requires |r| > 0 ==> !sp(r[|r| - 1])
    ensures |r| > 0 ==> !sp(r[0]) && !sp(r[|r| - 1])
    ensures r == "" <==> forall i | 0 <= i < |s| :: sp(s[i])
    ensures Contains(s, r)
    ensures CutAt(s, r, sp, |s| - |a|)
  {
    var k := |s| - |a|;
    assert s[k..k + |r|] == a[..|r|];
    assert OccursAt(s, r, k);
    forall i | k + |r| <= i < |s|
      ensures sp(s[i])
    {
      assert s[i] == a[i - k];
    }
    if |r| > 0 {
      assert r[0] == a[0];
    }
    if r == "" {
      assert |a| == 0;
    }
  }

  /** At most one cut of `s` neither starts nor ends with an `sp`
      character, so `Trim` is the only one. */
  lemma TrimmedCutUnique(s: string, r1: string, r2: string, sp: char -> bool)
    requires CutOf(s, r1, sp) && IsTrimmed(r1, sp)
    requires CutOf(s, r2, sp) && IsTrimmed(r2, sp)
    ensures r1 == r2
  {
    var a1 :| CutAt(s, r1, sp, a1);
    var a2 :| CutAt(s, r2, sp, a2);
    if |r1| > 0 {
      CutEnds(s, r1, sp, a1);
    }
    if |r2| > 0 {
      CutEnds(s, r2, sp, a2);
    }
    if |r1| > 0 && |r2| > 0 {
      assert a1 == a2;
      assert |r1| == |r2|;
    }
  }

  /** A non-empty trimmed cut starts and ends on a character outside `sp`. */
  lemma CutEnds(s: string, r: string, sp: char -> bool, a: int)
    requires CutAt(s, r, sp, a) && IsTrimmed(r, sp) && |r| > 0
    ensures !sp(s[a]) && !sp(s[a + |r| - 1])
  {
    assert r[0] == s[a] && r[|r| - 1] == s[a + |r| - 1];
  }

  /** Python's `str.strip()`. */
  function PyStrip(s: string): string {
    Trim(s, PyIsSpace)
  }

  /** JavaScript's `String.prototype.trim()`. */
  function JsTrim(s: string): string {
    Trim(s, JsIsSpace)
  }

  /** A string that is empty or neither starts nor ends with a `sp` character. */
  predicate IsTrimmed(s: string, sp: char -> bool) {
    |s| == 0 || (!sp(s[0]) && !sp(s[|s| - 1]))
  }

  /** Trimming a string padded on the left by `sp` characters gives back the
      trimmed string. */
  lemma {:induction false} TrimPadded(pad: string, s: string, sp: char -> bool)
    requires forall i | 0 <= i < |pad| :: sp(pad[i])
    requires |s| > 0 && IsTrimmed(s, sp)
    ensures Trim(pad + s, sp) == s
  {
    TrimStartPadded(pad, s, sp);
    assert TrimStart(pad + s, sp) == s;
  }

  lemma {:induction false} TrimStartPadded(pad: string, s: string, sp: char -> bool)
    requires forall i | 0 <= i < |pad| :: sp(pad[i])
    requires |s| > 0 && !sp(s[0])
    ensures TrimStart(pad + s, sp) == s
    decreases |pad|
  {
    if |pad| > 0 {
      assert (pad + s)[1..] == pad[1..] + s;
      TrimStartPadded(pad[1..], s, sp);
    }
  }

  /** Trimming twice is trimming once. */
  lemma TrimIdempotent(s: string, sp: char -> bool)
    ensures Trim(Trim(s, sp), sp) == Trim(s, sp)
  {
    var r := Trim(s, sp);
    assert CutAt(r, r, sp, 0);
    TrimmedCutUnique(r, r, Trim(r, sp), sp);
  }

  predicate StartsWith(s: string, prefix: string) {
    |prefix| <= |s| && s[..|prefix|] == prefix
  }

  predicate EndsWith(s: string, suffix: string) {
    |suffix| <= |s| && s[|s| - |suffix|..] == suffix
  }

  /** Python's `needle in s` / JavaScript's `s.includes(needle)`. */
  predicate Contains(s: string, needle: string) {
    exists i | 0 <= i <= |s| - |needle| :: OccursAt(s, needle, i)
  }

  /** `needle` occurs in `s` starting at index `i`. */
  predicate OccursAt(s: string, needle: string, i: int) {
    0 <= i && i + |needle| <= |s| && s[i..i + |needle|] == needle
  }

  /** JavaScript's `s || d` for a string that may be missing: the empty
      string is falsy. */
  function OrString(s: Option<string>, d: string): (r: string)
    ensures s.Some? && s.value != "" ==> r == s.value
    ensures (s.None? || s.value == "") ==> r == d
  {
    if s.Some? && s.value != "" then s.value else d
  }

  /** `sep.join(parts)` in Python, `parts.join(sep)` in JavaScript. */
  function Join(parts: seq<string>, sep: string): string
    decreases |parts|
  {
    if |parts| == 0 then ""
    else if |parts| == 1 then parts[0]
    else parts[0] + sep + Join(parts[1..], sep)
  }

  /** Python's `s.split(c)` for a one-character separator: every piece is
      free of `c`, there is always at least one piece, and joining the pieces
      with `c` restores `s`. */
  function Split(s: string, c: char): (r: seq<string>)
    ensures |r| == 1 + |s| - |RemoveChar(s, c)|
    ensures forall k | 0 <= k < |r| :: c !in r[k]
    ensures Join(r, [c]) == s
  {
    if |s| == 0 then [""]
    else
      var rest := Split(s[1..], c);
      var r := if s[0] == c then [""] + rest else [[s[0]] + rest[0]] + rest[1..];
      SplitStep(s, c, rest, r);
      r
  }

  /** Splitting `s` once its tail is split: a leading separator opens an
      empty piece, any other character joins the first piece. */
  lemma SplitStep(s: string, c: char, rest: seq<string>, r: seq<string>)
    requires |s| > 0 && |rest| >= 1 && Join(rest, [c]) == s[1..]
    requires forall k | 0 <= k < |rest| :: c !in rest[k]
    requires r == if s[0] == c then [""] + rest else [[s[0]] + rest[0]] + rest[1..]
    ensures forall k | 0 <= k < |r| :: c !in r[k]
    ensures Join(r, [c]) == s
  {
    assert s == [s[0]] + s[1..];
    if s[0] == c {
      assert Join(r, [c]) == "" + [c] + Join(rest, [c]);
    } else {
      SplitStepChar(s[0], c, rest);
    }
  }

  lemma SplitStepChar(x: char, c: char, rest: seq<string>)
    requires x != c && |rest| >= 1
    requires forall k | 0 <= k < |rest| :: c !in rest[k]
    ensures var r := [[x] + rest[0]] + rest[1..];
      && (forall k | 0 <= k < |r| :: c !in r[k])
      && Join(r, [c]) == [x] + Join(rest, [c])
  {
    var r := [[x] + rest[0]] + rest[1..];
    assert r[1..] == rest[1..];
    if |rest| > 1 {
      assert Join(r, [c]) == ([x] + rest[0]) + [c] + Join(rest[1..], [c]);
    }
  }

  /** A piece free of the separator splits off whole at the front. */
  lemma {:induction false} SplitAfterFirst(a: string, c: char, b: string)
    requires c !in a
    ensures Split(a + [c] + b, c) == [a] + Split(b, c)
    decreases |a|
  {
    var s := a + [c] + b;
    if |a| == 0 {
      assert s[0] == c && s[1..] == b;
    } else {
      assert s[0] == a[0] && s[1..] == a[1..] + [c] + b;
      SplitAfterFirst(a[1..], c, b);
      var rest := Split(s[1..], c);
      assert rest[0] == a[1..] && rest[1..] == Split(b, c);
      assert [a[0]] + a[1..] == a;
    }
  }

  /** `s` without any occurrence of `c`, used to count the pieces of `Split`. */
  function RemoveChar(s: string, c: char): (r: string)
    ensures |r| <= |s| && c !in r
  {
    if |s| == 0 then ""
    else if s[0] == c then RemoveChar(s[1..], c)
    else [s[0]] + RemoveChar(s[1..], c)
  }

  /** Python's `s.replace(pat, '')`: deletes the leftmost non-overlapping
      occurrences of `pat`, scanning from the left. */
  function RemoveAll(s: string, pat: string): (r: string)
    requires |pat| > 0
    ensures |r| <= |s|
    ensures !Contains(s, pat) ==> r == s
    decreases |s|
  {
    if |s| < |pat| then s
    else if s[..|pat|] == pat then
      assert OccursAt(s, pat, 0);
      RemoveAll(s[|pat|..], pat)
    else
      var r := [s[0]] + RemoveAll(s[1..], pat);
      assert !Contains(s, pat) ==> !Contains(s[1..], pat) by {
        if Contains(s[1..], pat) {
          var i :| 0 <= i <= |s[1..]| - |pat| && OccursAt(s[1..], pat, i);
          assert s[1..][i..i + |pat|] == s[i + 1..i + 1 + |pat|];
          assert OccursAt(s, pat, i + 1);
        }
      }
      r
  }

  /** Deleting a one-character pattern keeps every other character. */
  lemma {:induction false} RemoveAllKeepsOthers(s: string, c: char)
    ensures forall i | 0 <= i < |s| && s[i] != c :: s[i] in RemoveAll(s, [c])
    decreases |s|
  {
    if |s| > 0 {
      RemoveAllKeepsOthers(s[1..], c);
      assert forall i | 1 <= i < |s| :: s[i] == s[1..][i - 1];
    }
  }

  // ---- decimal and hexadecimal renderings ----

  predicate IsDigit(c: char) {
    '0' <= c <= '9'
  }

  predicate AllDigits(s: string) {
    forall i | 0 <= i < |s| :: IsDigit(s[i])
  }

  function DigitChar(d: nat): (c: char)
    requires d < 10
    ensures IsDigit(c) && c as int - '0' as int == d
  {
    ('0' as int + d) as char
  }

  /** The number a string of decimal digits denotes. */
  function DecimalValue(s: string): nat
    requires AllDigits(s)
  {
    if |s| == 0 then 0
    else DecimalValue(s[..|s| - 1]) * 10 + (s[|s| - 1] as int - '0' as int)
  }

  /** `String(n)` for a natural number: canonical decimal digits. */
  function NatToString(n: nat): (r: string)
    ensures |r| >= 1 && AllDigits(r)
    ensures |r| > 1 ==> r[0] != '0'
    ensures DecimalValue(r) == n
  {
    if n < 10 then [DigitChar(n)]
    else
      var p := NatToString(n / 10);
      var r := p + [DigitChar(n % 10)];
      assert r[..|r| - 1] == p;
      r
  }

  /** `String(i)` for an integer: a minus sign before the digits of a
      negative number. */
  function IntToString(i: int): (r: string)
    ensures i >= 0 ==> AllDigits(r) && DecimalValue(r) == i
    ensures i < 0 ==> |r| >= 2 && r[0] == '-' && AllDigits(r[1..]) && DecimalValue(r[1..]) == -i
  {
    if i >= 0 then NatToString(i) else "-" + NatToString(-i)
  }

  /** Hexadecimal digits in either case, as the regex class `[a-f\d]` with
      the `i` flag accepts them. */
  predicate IsHexDigit(c: char) {
    ('0' <= c <= '9') || ('a' <= c <= 'f') || ('A' <= c <= 'F')
  }

  predicate IsLowerHexDigit(c: char) {
    ('0' <= c <= '9') || ('a' <= c <= 'f')
  }

  function HexDigitValue(c: char): (d: nat)
    requires IsHexDigit(c)
    ensures d < 16
  {
    if '0' <= c <= '9' then c as int - '0' as int
    else if 'a' <= c <= 'f' then c as int - 'a' as int + 10
    else c as int - 'A' as int + 10
  }

  /** The lower-case hexadecimal digit of `d`. */
  function LowerHexChar(d: nat): (c: char)
    requires d < 16
    ensures IsLowerHexDigit(c) && HexDigitValue(c) == d
  {
    if d < 10 then ('0' as int + d) as char else ('a' as int + d - 10) as char
  }

  /** Lower-casing a hexadecimal digit keeps its value. */
  function ToLowerHex(c: char): (l: char)
    requires IsHexDigit(c)
    ensures IsLowerHexDigit(l) && HexDigitValue(l) == HexDigitValue(c)
  {
    LowerHexChar(HexDigitValue(c))
  }

  predicate AllHexDigits(s: string) {
    forall i | 0 <= i < |s| :: IsHexDigit(s[i])
  }

  /** The number a string of hexadecimal digits denotes (`parseInt(s, 16)`). */
  function HexValue(s: string): nat
    requires AllHexDigits(s)
  {
    if |s| == 0 then 0
    else HexValue(s[..|s| - 1]) * 16 + HexDigitValue(s[|s| - 1])
  }

  /** `n.toString(16)` for a natural number: canonical lower-case digits,
      one digit below 16 and at most two below 256. */
  function NatToHex(n: nat): (r: string)
    ensures |r| >= 1 && forall i | 0 <= i < |r| :: IsLowerHexDigit(r[i])
    ensures AllHexDigits(r)
    ensures |r| > 1 ==> r[0] != '0'
    ensures HexValue(r) == n
    ensures |r| == 1 <==> n < 16
    ensures n < 256 ==> |r| <= 2
  {
    if n < 16 then [LowerHexChar(n)]
    else
      var p := NatToHex(n / 16);
      var r := p + [LowerHexChar(n % 16)];
      assert r[..|r| - 1] == p;
      r
  }
}
