/** The client's colour codec (`#rrggbb` to components and back) and its
    generic retry helper. */
module Utils {
  import opened Wrappers
  import opened Text

  // ---- color.hexToRgb / color.rgbToHex ----

  datatype Rgb = Rgb(r: nat, g: nat, b: nat)

  /** Two hexadecimal digits of either case. */
  function ByteOf(s: string): (v: nat)
    requires |s| == 2 && AllHexDigits(s)
    ensures v < 256
    ensures v == HexDigitValue(s[0]) * 16 + HexDigitValue(s[1])
  {
    assert s[..1][..0] == [];
    assert HexValue(s[..1]) == HexDigitValue(s[0]);
    var hi := HexDigitValue(s[0]);
    var lo := HexDigitValue(s[1]);
    assert hi * 16 <= 240 by { assert hi <= 15; }
    HexValue(s)
  }

  /** The digits the pattern `^#?([a-f\d]{2}){3}$` (case-insensitive) captures,
      or `None` when it does not match. */
  function HexDigitsOf(hex: string): (d: Option<string>)
    ensures d.Some? ==> |d.value| == 6 && AllHexDigits(d.value)
    ensures d.Some? <==>
      || (|hex| == 6 && AllHexDigits(hex))
      || (|hex| == 7 && hex[0] == '#' && AllHexDigits(hex[1..]))
    ensures d.Some? ==> d.value == hex[|hex| - 6..]
  {
    var body := if |hex| > 0 && hex[0] == '#' then hex[1..] else hex;
    if |body| == 6 && AllHexDigits(body) then Some(body) else None
  }

  /** `color.hexToRgb`: the three captured pairs as numbers, or `None`. */
  function HexToRgb(hex: string): (c: Option<Rgb>)
    ensures c.Some? <==> HexDigitsOf(hex).Some?
    ensures c.Some? ==> c.value.r < 256 && c.value.g < 256 && c.value.b < 256
  {
    match HexDigitsOf(hex)
    case None => None
    case Some(d) => Some(BytesOf(d))
  }

  /** The three components of six hexadecimal digits. */
  function BytesOf(d: string): (c: Rgb)
    requires |d| == 6 && AllHexDigits(d)
    ensures c.r < 256 && c.g < 256 && c.b < 256
  {
    assert AllHexDigits(d[0..2]) && AllHexDigits(d[2..4]) && AllHexDigits(d[4..6]) by {
      assert forall i | 0 <= i < 2 :: d[0..2][i] == d[i] && d[2..4][i] == d[i + 2] && d[4..6][i] == d[i + 4];
    }
    Rgb(ByteOf(d[0..2]), ByteOf(d[2..4]), ByteOf(d[4..6]))
  }

  /** One component: `x.toString(16)`, padded with '0' to two digits when it
      has one. */
  function Pad2(x: nat): (h: string)
    ensures x < 256 ==> |h| == 2
    ensures AllHexDigits(h) && forall i | 0 <= i < |h| :: IsLowerHexDigit(h[i])
    ensures |h| == 2 ==> ByteOf(h) == x
  {
    var hex := NatToHex(x);
    if |hex| == 1 then
      var h := "0" + hex;
      assert HexDigitValue(h[0]) == 0;
      h
    else
      assert |hex| == 2 ==> HexValue(hex[..1]) == HexDigitValue(hex[0]) by {
        if |hex| == 2 {
          assert hex[..1][..0] == [];
        }
      }
      hex
  }

  /** `color.rgbToHex`: '#' and the three padded components. */
  function RgbToHex(c: Rgb): (h: string)
    ensures c.r < 256 && c.g < 256 && c.b < 256 ==>
      |h| == 7 && h[0] == '#' && forall i | 1 <= i < 7 :: IsLowerHexDigit(h[i])
  {
    "#" + Pad2(c.r) + Pad2(c.g) + Pad2(c.b)
  }

  /** Components in range survive a trip through the string form. */
  lemma RgbRoundTrip(c: Rgb)
    requires c.r < 256 && c.g < 256 && c.b < 256
    ensures HexToRgb(RgbToHex(c)) == Some(c)
  {
    var x, y, z := Pad2(c.r), Pad2(c.g), Pad2(c.b);
    var d := x + y + z;
    ThreePairs(x, y, z);
    assert RgbToHex(c) == "#" + d;
    assert HexDigitsOf("#" + d) == Some(d) by {
      assert ("#" + d)[1..] == d;
    }
    assert BytesOf(d) == c;
  }

  /** Cutting three two-digit strings back out of their concatenation,
      which is itself made of digits. */
  lemma ThreePairs(a: string, b: string, c: string)
    requires |a| == 2 && |b| == 2 && |c| == 2
    requires AllHexDigits(a) && AllHexDigits(b) && AllHexDigits(c)
    ensures var d := a + b + c; d[0..2] == a && d[2..4] == b && d[4..6] == c
    ensures AllHexDigits(a + b + c)
  {
    var d := a + b + c;
    assert forall i | 0 <= i < 6 :: d[i] == if i < 2 then a[i] else if i < 4 then b[i - 2] else c[i - 4];
  }

  /** The lower-case form of hexadecimal digits. */
  function LowerHex(s: string): (l: string)
    requires AllHexDigits(s)
    ensures |l| == |s| && forall i | 0 <= i < |s| :: l[i] == ToLowerHex(s[i])
  {
    seq(|s|, i requires 0 <= i < |s| => ToLowerHex(s[i]))
  }

  /** Two digits read as a byte and written back give their lower-case form. */
  lemma ByteRoundTrip(s: string)
    requires |s| == 2 && AllHexDigits(s)
    ensures Pad2(ByteOf(s)) == LowerHex(s)
  {
    var hi := HexDigitValue(s[0]);
    var lo := HexDigitValue(s[1]);
    var v := ByteOf(s);
    assert v / 16 == hi && v % 16 == lo;
    if hi == 0 {
      assert NatToHex(v) == [LowerHexChar(lo)];
      assert LowerHexChar(0) == '0';
    } else {
      assert NatToHex(v / 16) == [LowerHexChar(hi)];
      assert NatToHex(v) == [LowerHexChar(hi), LowerHexChar(lo)];
    }
  }

  /** A string `hexToRgb` accepts comes back from `rgbToHex` as '#' and its
      digits in lower case. */
  lemma HexRoundTrip(hex: string)
    requires HexDigitsOf(hex).Some?
    ensures var d := HexDigitsOf(hex).value;
      RgbToHex(HexToRgb(hex).value) == "#" + LowerHex(d)
  {
    var d := HexDigitsOf(hex).value;
    assert HexToRgb(hex).value == BytesOf(d);
    DigitsRoundTrip(d);
  }

  lemma DigitsRoundTrip(d: string)
    requires |d| == 6 && AllHexDigits(d)
    ensures RgbToHex(BytesOf(d)) == "#" + LowerHex(d)
  {
    var x, y, z := d[0..2], d[2..4], d[4..6];
    LowerHexSplit(d);
    var c := BytesOf(d);
    assert c == Rgb(ByteOf(x), ByteOf(y), ByteOf(z));
    ByteRoundTrip(x);
    ByteRoundTrip(y);
    ByteRoundTrip(z);
    HexOfParts(c, LowerHex(x), LowerHex(y), LowerHex(z));
  }

  /** `rgbToHex` from the three padded components. */
  lemma HexOfParts(c: Rgb, a: string, b: string, e: string)
    requires Pad2(c.r) == a && Pad2(c.g) == b && Pad2(c.b) == e
    ensures RgbToHex(c) == "#" + (a + b + e)
  {
  }

  lemma LowerHexSplit(d: string)
    requires |d| == 6 && AllHexDigits(d)
    ensures AllHexDigits(d[0..2]) && AllHexDigits(d[2..4]) && AllHexDigits(d[4..6])
    ensures LowerHex(d) == LowerHex(d[0..2]) + LowerHex(d[2..4]) + LowerHex(d[4..6])
  {
    assert forall i | 0 <= i < 2 :: d[0..2][i] == d[i] && d[2..4][i] == d[i + 2] && d[4..6][i] == d[i + 4];
  }

  // ---- utils.retry ----

  /** The result of `retry`, how many times `fn` was called, and the delays
      slept between the calls. */
  datatype RetryRun<T, E> = RetryRun(outcome: Result<T, E>, calls: nat, sleeps: seq<int>)

  /** `utils.retry(fn, retries, delay)`: `attempt(k)` is the outcome of the
      k-th call (from `first`). The first success is returned; after a
      failure, with `retries > 0` the helper sleeps `delay` and tries again
      with one retry fewer, otherwise the failure is rethrown. */
  function Retry<T, E>(attempt: nat -> Result<T, E>, retries: int, delay: int, first: nat): (r: RetryRun<T, E>)
    ensures 1 <= r.calls <= (if retries > 0 then retries else 0) + 1
    ensures r.outcome == attempt(first + r.calls - 1)
    ensures forall k | first <= k < first + r.calls - 1 :: attempt(k).Failure?
    ensures r.outcome.Failure? ==> r.calls == (if retries > 0 then retries else 0) + 1
    ensures |r.sleeps| == r.calls - 1 && forall i | 0 <= i < |r.sleeps| :: r.sleeps[i] == delay
    decreases if retries > 0 then retries else 0
  {
    var a := attempt(first);
    if a.Success? || retries <= 0 then RetryRun(a, 1, [])
    else
      var rest := Retry(attempt, retries - 1, delay, first + 1);
      RetryRun(rest.outcome, rest.calls + 1, [delay] + rest.sleeps)
  }

  /** The defaults (3 retries, 1000 ms): a call that always fails is made
      four times with three one-second pauses. */
  lemma RetryDefaultsGiveUpAfterFour<T, E>(attempt: nat -> Result<T, E>)
    requires forall k :: attempt(k).Failure?
    ensures Retry(attempt, 3, 1000, 0).calls == 4
    ensures Retry(attempt, 3, 1000, 0).sleeps == [1000, 1000, 1000]
    ensures Retry(attempt, 3, 1000, 0).outcome == attempt(3)
  {
    var r := Retry(attempt, 3, 1000, 0);
    assert |r.sleeps| == 3;
  }
}
