/** The clock face: `String(n)` for integers, `pad2`, and the `mm:ss` text
    the timer shows. */
module Format {

  predicate IsDigit(c: char) { '0' <= c <= '9' }

  predicate AllDigits(s: string) {
    forall i :: 0 <= i < |s| ==> IsDigit(s[i])
  }

  function DigitChar(d: nat): (c: char)
    requires d < 10
    ensures IsDigit(c)
  {
    ('0' as int + d) as char
  }

  function DigitValue(c: char): nat
    requires IsDigit(c)
  {
    c as int - '0' as int
  }

  /** The number a string of decimal digits denotes (leading zeros allowed). */
  function DecimalValue(s: string): nat
    requires AllDigits(s)
  {
    if s == [] then 0 else DecimalValue(s[..|s| - 1]) * 10 + DigitValue(s[|s| - 1])
  }

  /** The decimal digits of `n`, without leading zeros. */
  function NatToString(n: nat): (s: string)
    ensures 1 <= |s| && AllDigits(s)
    ensures DecimalValue(s) == n
    ensures s[0] == '0' <==> n == 0
    ensures n < 10 <==> |s| == 1
    ensures n < 100 <==> |s| <= 2
    ensures n < 1000 ==> |s| <= 3
  {
    if n < 10 then [DigitChar(n)]
    else
      var s := NatToString(n / 10) + [DigitChar(n % 10)];
      assert s[..|s| - 1] == NatToString(n / 10);
      s
  }

  /** `String(n)` for an integer `n`: a minus sign exactly for negative
      numbers, followed by the digits of the magnitude with no leading
      zero (apart from `0` itself). */
  function IntToString(n: int): (r: string)
    ensures |r| >= 1 && (r[0] == '-' <==> n < 0)
    ensures n >= 0 ==> AllDigits(r) && DecimalValue(r) == n && (r[0] == '0' ==> |r| == 1)
    ensures n < 0 ==> |r| >= 2 && AllDigits(r[1..]) && DecimalValue(r[1..]) == -n && r[1] != '0'
  {
    if n < 0 then "-" + NatToString(-n) else NatToString(n)
  }

  /** A zero in front of a digit string does not change its value. */
  lemma {:induction false} LeadingZero(s: string)
    requires AllDigits(s)
    ensures AllDigits("0" + s) && DecimalValue("0" + s) == DecimalValue(s)
    decreases |s|
  {
    var p := "0" + s;
    if s != [] {
      assert p[..|p| - 1] == "0" + s[..|s| - 1];
      LeadingZero(s[..|s| - 1]);
    } else {
      assert p[..|p| - 1] == [];
    }
  }

  /** `pad2`: `String(n).padStart(2, "0")`. The result is at least two
      characters long and ends with `String(n)`; for a natural number it
      reads back as `n`, and below 100 it is exactly two digits. */
  function Pad2(n: int): (r: string)
    ensures |r| >= 2
    ensures |r| >= |IntToString(n)| && r[|r| - |IntToString(n)|..] == IntToString(n)
    ensures |IntToString(n)| >= 2 ==> r == IntToString(n)
    ensures n >= 0 ==> AllDigits(r) && DecimalValue(r) == n
    ensures 0 <= n < 100 ==> |r| == 2
  {
    var s := IntToString(n);
    if |s| >= 2 then s
    else
      LeadingZero(s);
      "0" + s
  }

  /** JavaScript's `%` on integers: the remainder takes the sign of the
      dividend. */
  function JsRem(a: int, b: int): int
    requires b > 0
  {
    if a >= 0 then a % b else -((-a) % b)
  }

  /** The minute and second fields of `updateTimeUI`:
      `Math.floor(sec / 60)` and `sec % 60`. For a non-negative count they
      are the minutes and the leftover seconds. */
  function SplitClock(sec: int): (ms: (int, int))
    ensures sec >= 0 ==> ms.0 >= 0 && 0 <= ms.1 < 60 && ms.0 * 60 + ms.1 == sec
  {
    (sec / 60, JsRem(sec, 60))
  }

  /** The `mm:ss` text of the clock. For a non-negative count it is a digit
      field of at least two characters, a colon, and a two-digit seconds
      field. */
  function ClockText(sec: int): (t: string)
    ensures sec >= 0 ==>
      && |t| >= 5 && t[|t| - 3] == ':'
      && AllDigits(t[..|t| - 3]) && AllDigits(t[|t| - 2..])
  {
    var ms := SplitClock(sec);
    var a, b := Pad2(ms.0), Pad2(ms.1);
    if sec >= 0 then Colon(a, b); a + ":" + b else a + ":" + b
  }

  /** Two digit fields joined by a colon, the second two characters long. */
  lemma Colon(a: string, b: string)
    requires |a| >= 2 && AllDigits(a) && |b| == 2 && AllDigits(b)
    ensures var t := a + ":" + b;
      && |t| >= 5 && t[|t| - 3] == ':'
      && AllDigits(t[..|t| - 3]) && AllDigits(t[|t| - 2..])
  {
    Fields(a, b);
  }

  /** `pad2(m) + ":" + pad2(s)` for whole minutes and seconds: the minute
      field, a colon and the two-digit seconds field, each reading back as
      its number. */
  lemma ClockFields(m: int, s: int)
    requires m >= 0 && 0 <= s < 60
    ensures var t := Pad2(m) + ":" + Pad2(s);
      && |t| == |Pad2(m)| + 3 && t[|t| - 3] == ':'
      && t[..|t| - 3] == Pad2(m) && t[|t| - 2..] == Pad2(s)
      && AllDigits(Pad2(m)) && DecimalValue(Pad2(m)) == m
      && |Pad2(s)| == 2 && AllDigits(Pad2(s)) && DecimalValue(Pad2(s)) == s
  {
    Fields(Pad2(m), Pad2(s));
  }

  /** How wide `pad2` makes a natural number. */
  lemma Pad2Width(m: int)
    requires m >= 0
    ensures m < 100 <==> |Pad2(m)| == 2
    ensures m < 1000 ==> |Pad2(m)| <= 3
  {
    if m >= 100 {
      assert |IntToString(m)| >= 3;
    }
  }

  /** The clock text reads back as the number of seconds: the minute field
      times 60 plus the seconds field, the seconds field below 60. Under 100 minutes it is five
      characters, `mm:ss`; under 1000 minutes (which covers the longest
      focus phase, 180 minutes) the minute field has at most three digits. */
  lemma ClockTextReadsBack(sec: int)
    requires sec >= 0
    ensures var t := ClockText(sec);
      && |t| >= 5 && t[|t| - 3] == ':'
      && AllDigits(t[..|t| - 3]) && AllDigits(t[|t| - 2..])
      && DecimalValue(t[..|t| - 3]) * 60 + DecimalValue(t[|t| - 2..]) == sec
      && DecimalValue(t[|t| - 2..]) < 60
      && (sec < 6000 <==> |t| == 5)
      && (sec < 60000 ==> |t| <= 6)
  {
    var ms := SplitClock(sec);
    ClockFields(ms.0, ms.1);
    Pad2Width(ms.0);
    assert ClockText(sec) == Pad2(ms.0) + ":" + Pad2(ms.1);
  }

  /** The two fields of `a:b`. */
  lemma Fields(a: string, b: string)
    ensures var t := a + ":" + b;
      |t| == |a| + |b| + 1 && t[|a|] == ':' && t[..|a|] == a && t[|a| + 1..] == b
  {
  }
}
