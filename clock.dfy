/** The text of the countdown display: a number of seconds rendered as MM:SS,
    the way HomePage.updateDisplay builds it from JavaScript's Math.floor,
    the `%` operator, Number.prototype.toString and String.prototype.padStart. */
module Clock {

  predicate IsDigit(c: char) {
    '0' <= c <= '9'
  }

  predicate AllDigits(t: string) {
    forall i | 0 <= i < |t| :: IsDigit(t[i])
  }

  function DigitChar(d: int): (c: char)
    requires 0 <= d < 10
    ensures IsDigit(c)
  {
    ('0' as int + d) as char
  }

  function DigitValue(c: char): (d: int)
    requires IsDigit(c)
    ensures 0 <= d < 10 && DigitChar(d) == c
  {
    c as int - '0' as int
  }

  lemma DigitValueOfChar(d: int)
    requires 0 <= d < 10
    ensures DigitValue(DigitChar(d)) == d
  {
  }

  /** The decimal numeral of n, without leading zeros: what toString gives
      for a non-negative integer. */
  function Decimal(n: nat): (r: string)
    ensures 1 <= |r| && (|r| == 1 <==> n < 10)
    decreases n
  {
    if n < 10 then [DigitChar(n)] else Decimal(n / 10) + [DigitChar(n % 10)]
  }

  /** A numeral is a non-empty string of digits, a single digit exactly for
      numbers below ten, and has no leading zero. */
  lemma {:induction false} DecimalShape(n: nat)
    ensures var r := Decimal(n);
      1 <= |r| && AllDigits(r) && (|r| == 1 <==> n < 10) && (|r| == 1 || r[0] != '0')
    decreases n
  {
    if n >= 10 {
      DecimalShape(n / 10);
      var d := Decimal(n / 10);
      assert Decimal(n) == d + [DigitChar(n % 10)];
      assert Decimal(n)[0] == d[0];
    }
  }

  /** The number a string of digits denotes (the reading back of a numeral). */
  function DigitsValue(t: string): nat
    requires AllDigits(t)
    decreases |t|
  {
    if t == [] then 0 else DigitsValue(t[..|t| - 1]) * 10 + DigitValue(t[|t| - 1])
  }

  /** Reading a numeral back gives the number it was written from. */
  lemma {:induction false} DecimalRoundTrip(n: nat)
    ensures AllDigits(Decimal(n)) && DigitsValue(Decimal(n)) == n
    decreases n
  {
    DecimalShape(n);
    var r := Decimal(n);
    if n < 10 {
      assert r[..|r| - 1] == [];
      DigitValueOfChar(n);
    } else {
      DecimalRoundTrip(n / 10);
      assert r[..|r| - 1] == Decimal(n / 10);
      DigitValueOfChar(n % 10);
    }
  }

  /** toString of an integer-valued number: a minus sign before the
      numeral of the magnitude when it is negative. */
  function NumberToString(x: int): (r: string)
    ensures 1 <= |r| && (r[0] == '-' <==> x < 0)
  {
    DecimalShape(if x < 0 then -x else x);
    if x < 0 then "-" + Decimal(-x) else Decimal(x)
  }

  /** The numeral of an integer reads back as that integer: its digits
      denote the magnitude, after a minus sign exactly when it is negative. */
  lemma NumberToStringRoundTrip(x: int)
    ensures var r := NumberToString(x);
      (x >= 0 ==> AllDigits(r) && DigitsValue(r) == x) &&
      (x < 0 ==> |r| >= 2 && r[0] == '-' && AllDigits(r[1..]) && DigitsValue(r[1..]) == -x)
  {
    DecimalRoundTrip(if x < 0 then -x else x);
    if x < 0 {
      assert NumberToString(x)[1..] == Decimal(-x);
    }
  }

  /** padStart(2, '0'): zeros in front up to length two, longer strings untouched. */
  function PadStart2(t: string): string {
    if |t| >= 2 then t else if |t| == 1 then "0" + t else "00"
  }

  /** The padded text is at least two characters long, ends with the text
      it was given, and what was put in front of it is all zeros. */
  lemma PadStart2Shape(t: string)
    ensures var r := PadStart2(t);
      |r| == (if |t| < 2 then 2 else |t|) && r[|r| - |t|..] == t &&
      forall i | 0 <= i < |r| - |t| :: r[i] == '0'
  {
  }

  /** The only multiple of b in [0, b) is 0 * b. */
  lemma SmallMultiple(d: int, b: int)
    requires b > 0 && 0 <= d * b < b
    ensures d == 0
  {
  }

  /** A multiple of b leaves no remainder. */
  lemma MultipleHasNoRemainder(k: int, b: int)
    requires b > 0
    ensures (k * b) % b == 0
  {
    var q, m := (k * b) / b, (k * b) % b;
    assert k * b == q * b + m;
    assert (k - q) * b == m;
    SmallMultiple(k - q, b);
  }

  /** JavaScript's `a % b` for b > 0: the remainder of division truncated
      toward zero, whose sign follows the dividend (unlike Dafny's `%`). */
  function JsRem(a: int, b: int): (r: int)
    requires b > 0
    ensures a >= 0 ==> 0 <= r < b && r == a % b
    ensures a < 0 ==> -b < r <= 0
    ensures (a - r) % b == 0
  {
    if a >= 0 then
      assert a - a % b == (a / b) * b;
      MultipleHasNoRemainder(a / b, b);
      a % b
    else
      var q, m := (-a) / b, (-a) % b;
      assert -a == q * b + m;
      assert a + m == (-q) * b;
      MultipleHasNoRemainder(-q, b);
      -m
  }


  /** updateDisplay's text: floor(seconds / 60) and seconds % 60, each
      padded to two characters, joined by a colon. Dafny's `/` rounds down
      for a positive divisor, as Math.floor does. */
  function FormatTime(seconds: int): string {
    PadStart2(NumberToString(seconds / 60)) + ":" + PadStart2(NumberToString(JsRem(seconds, 60)))
  }

  /** Two decimal digits of a number below 100, tens first. */
  function TwoDigitText(m: int): (r: string)
    requires 0 <= m < 100
    ensures |r| == 2 && IsDigit(r[0]) && IsDigit(r[1])
    ensures DigitValue(r[0]) * 10 + DigitValue(r[1]) == m
  {
    DigitValueOfChar(m / 10);
    DigitValueOfChar(m % 10);
    [DigitChar(m / 10), DigitChar(m % 10)]
  }

  lemma PaddedTwoDigits(m: int)
    requires 0 <= m < 100
    ensures PadStart2(NumberToString(m)) == TwoDigitText(m)
  {
    assert NumberToString(m) == Decimal(m);
    if m < 10 {
      assert Decimal(m) == [DigitChar(m)];
      assert m / 10 == 0 && m % 10 == m;
      assert DigitChar(0) == '0';
    } else {
      assert Decimal(m / 10) == [DigitChar(m / 10)];
      assert Decimal(m) == [DigitChar(m / 10)] + [DigitChar(m % 10)];
    }
  }

  /** For every count of seconds the timer can show (under 100 minutes) the
      display is the two digits of the minutes, a colon and the two digits
      of the seconds. */
  lemma FormatTimeDigits(s: int)
    requires 0 <= s < 6000
    ensures FormatTime(s) == TwoDigitText(s / 60) + ":" + TwoDigitText(s % 60)
  {
    PaddedTwoDigits(s / 60);
    PaddedTwoDigits(s % 60);
  }

  /** A well-formed MM:SS text. */
  predicate IsClockText(t: string) {
    |t| == 5 && IsDigit(t[0]) && IsDigit(t[1]) && t[2] == ':' && IsDigit(t[3]) && IsDigit(t[4])
  }

  /** The number of seconds a MM:SS text stands for. */
  function ClockValue(t: string): int
    requires IsClockText(t)
  {
    (DigitValue(t[0]) * 10 + DigitValue(t[1])) * 60 + DigitValue(t[3]) * 10 + DigitValue(t[4])
  }

  /** The two-digit minutes, a colon and the two-digit seconds form a
      well-formed MM:SS text that reads back to minutes * 60 + seconds. */
  lemma ClockTextOfDigits(m: int, sec: int)
    requires 0 <= m < 100 && 0 <= sec < 60
    ensures var t := TwoDigitText(m) + ":" + TwoDigitText(sec);
      IsClockText(t) && ClockValue(t) == m * 60 + sec && t[3] <= '5'
  {
    var mm, ss := TwoDigitText(m), TwoDigitText(sec);
    var t := mm + ":" + ss;
    assert t[0] == mm[0] && t[1] == mm[1] && t[2] == ':' && t[3] == ss[0] && t[4] == ss[1];
    assert DigitValue(t[0]) * 10 + DigitValue(t[1]) == m;
    assert DigitValue(t[3]) * 10 + DigitValue(t[4]) == sec;
  }

  /** The display can be read back: below 100 minutes, the MM:SS text
      determines the number of seconds it was made from, and its seconds
      field is below 60. */
  lemma ClockRoundTrip(s: int)
    requires 0 <= s < 6000
    ensures IsClockText(FormatTime(s))
    ensures ClockValue(FormatTime(s)) == s
    ensures FormatTime(s)[3] <= '5'
  {
    FormatTimeDigits(s);
    ClockTextOfDigits(s / 60, s % 60);
  }

  /** The example 125 -> "02:05". */
  lemma FormatTwoMinutesFive()
    ensures FormatTime(125) == "02:05"
  {
    FormatTimeDigits(125);
    assert TwoDigitText(125 / 60) == "02";
    assert TwoDigitText(125 % 60) == "05";
  }

  /** The example 59 -> "00:59". */
  lemma FormatFiftyNine()
    ensures FormatTime(59) == "00:59"
  {
    FormatTimeDigits(59);
    assert TwoDigitText(59 / 60) == "00";
    assert TwoDigitText(59 % 60) == "59";
  }

  /** The example 0 -> "00:00". */
  lemma FormatZero()
    ensures FormatTime(0) == "00:00"
  {
    FormatTimeDigits(0);
    assert TwoDigitText(0) == "00";
  }

  /** A countdown that overshoots to -1 shows "-1:-1": Math.floor(-1 / 60)
      is -1 and the truncating remainder -1 % 60 is -1, and padStart leaves
      two-character strings alone. */
  lemma FormatMinusOne()
    ensures FormatTime(-1) == "-1:-1"
  {
    assert -1 / 60 == -1;
    assert JsRem(-1, 60) == -1;
    assert Decimal(1) == "1";
    assert NumberToString(-1) == "-1";
  }
}
