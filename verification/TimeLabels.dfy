/** Clock labels: minutes to "hh:mm" and back. */
module TimeLabels {
  import opened Text

  function Digit(d: nat): char
    requires d < 10
  {
    "0123456789"[d]
  }

  predicate IsDigit(c: char) { '0' <= c <= '9' }

  function DigitValue(c: char): nat
    requires IsDigit(c)
  {
    c as int - '0' as int
  }

  function Decimal(n: nat): string {
    if n < 10 then [Digit(n)] else Decimal(n / 10) + [Digit(n % 10)]
  }

  /** `String(n)` on an integer. */
  function IntText(n: int): string {
    if n < 0 then "-" + Decimal(-n) else Decimal(n)
  }

  /** `padStart(2, '0')`. */
  function Pad2(s: string): string {
    if |s| >= 2 then s else if |s| == 1 then "0" + s else "00"
  }

  /** JavaScript's remainder takes the sign of the dividend. */
  function Rem(a: int, b: int): int
    requires b > 0
  {
    if a >= 0 then a % b else -((-a) % b)
  }

  function MinutesToLabel(minutes: int): string {
    Pad2(IntText(minutes / 60)) + ":" + Pad2(IntText(Rem(minutes, 60)))
  }

  function Number2(s: string): nat
    requires |s| == 2 && IsDigit(s[0]) && IsDigit(s[1])
  {
    10 * DigitValue(s[0]) + DigitValue(s[1])
  }

  /** One or two digits, a colon, two digits; anything else counts as midnight. */
  function ParseTime(value: string): nat {
    var s := Trim(value);
    if |s| == 5 && IsDigit(s[0]) && IsDigit(s[1]) && s[2] == ':' && IsDigit(s[3]) && IsDigit(s[4])
    then Number2(s[..2]) * 60 + Number2(s[3..])
    else if |s| == 4 && IsDigit(s[0]) && s[1] == ':' && IsDigit(s[2]) && IsDigit(s[3])
    then DigitValue(s[0]) * 60 + Number2(s[2..])
    else 0
  }

  lemma {:induction false} DecimalShape(n: nat)
    ensures |Decimal(n)| >= 1
    ensures IsDigit(Decimal(n)[0]) && IsDigit(Decimal(n)[|Decimal(n)| - 1])
    ensures n >= 100 ==> |Decimal(n)| >= 3
    ensures n >= 10 ==> |Decimal(n)| >= 2
  {
    if n >= 10 {
      DecimalShape(n / 10);
      assert |Decimal(n)| == |Decimal(n / 10)| + 1;
    }
  }

  lemma PadTwoDigits(n: nat)
    requires n < 100
    ensures Pad2(IntText(n)) == [Digit(n / 10), Digit(n % 10)]
  {
    if n >= 10 { assert Decimal(n / 10) == [Digit(n / 10)]; }
  }

  lemma DigitReads(d: nat)
    requires d < 10
    ensures IsDigit(Digit(d)) && DigitValue(Digit(d)) == d
  {
    assert Digit(d) == '0' + d as char;
  }

  lemma TwoDigitsRead(n: nat)
    requires n < 100
    ensures var s := [Digit(n / 10), Digit(n % 10)];
            IsDigit(s[0]) && IsDigit(s[1]) && Number2(s) == n
  {
    DigitReads(n / 10);
    DigitReads(n % 10);
  }

  function Clock(h: nat, r: nat): string
    requires h < 100 && r < 100
  {
    [Digit(h / 10), Digit(h % 10), ':', Digit(r / 10), Digit(r % 10)]
  }

  lemma ClockReads(h: nat, r: nat)
    requires h < 100 && r < 100
    ensures ParseTime(Clock(h, r)) == h * 60 + r
  {
    TwoDigitsRead(h);
    TwoDigitsRead(r);
    var s := Clock(h, r);
    assert s[..2] == [Digit(h / 10), Digit(h % 10)] && s[3..] == [Digit(r / 10), Digit(r % 10)];
    assert Trim(s) == s;
  }

  lemma LabelReads(m: nat)
    requires m < 6000
    ensures ParseTime(MinutesToLabel(m)) == m
  {
    PadTwoDigits(m / 60);
    PadTwoDigits(m % 60);
    ClockReads(m / 60, m % 60);
    assert MinutesToLabel(m) == Clock(m / 60, m % 60);
  }

  lemma PadShape(n: int)
    ensures |Pad2(IntText(n))| >= 2
    ensures n >= 100 ==> |Pad2(IntText(n))| >= 3
    ensures n < 0 ==> Pad2(IntText(n))[0] == '-'
    ensures !IsSpace(Pad2(IntText(n))[0]) && !IsSpace(Pad2(IntText(n))[|Pad2(IntText(n))| - 1])
  {
    DecimalShape(if n < 0 then -n else n);
  }

  /** The label determines the minute exactly for the 6000 minutes that fit two-digit hours. */
  lemma LabelRoundTrip(m: int)
    ensures ParseTime(MinutesToLabel(m)) == m <==> 0 <= m < 6000
  {
    if 0 <= m < 6000 {
      LabelReads(m);
    } else if m >= 6000 {
      var s := MinutesToLabel(m);
      PadShape(m / 60);
      PadShape(Rem(m, 60));
      assert Trim(s) == s && |s| >= 6;
    }
  }

  function NumberOf(digits: string): nat
    requires forall i :: 0 <= i < |digits| ==> IsDigit(digits[i])
  {
    if digits == "" then 0 else 10 * NumberOf(digits[..|digits| - 1]) + DigitValue(digits[|digits| - 1])
  }

  /** One or two digits of hours and two of minutes. */
  predicate ClockTime(s: string, hours: string, minutes: string) {
    && s == hours + ":" + minutes && 1 <= |hours| <= 2 && |minutes| == 2
    && (forall i :: 0 <= i < |hours| ==> IsDigit(hours[i])) && (forall i :: 0 <= i < |minutes| ==> IsDigit(minutes[i]))
  }

  lemma OneDigit(s: string)
    requires |s| == 1 && IsDigit(s[0])
    ensures NumberOf(s) == DigitValue(s[0])
  {
    assert s[..0] == "";
  }

  lemma TwoDigits(s: string)
    requires |s| == 2 && IsDigit(s[0]) && IsDigit(s[1])
    ensures NumberOf(s) == Number2(s)
  {
    OneDigit(s[..1]);
  }

  /** A clock time reads as its minutes, whatever white space is around it. */
  lemma ClockTimeReads(value: string, hours: string, minutes: string)
    requires ClockTime(Trim(value), hours, minutes)
    ensures ParseTime(value) == 60 * NumberOf(hours) + NumberOf(minutes)
  {
    var s := Trim(value);
    assert s[|hours|] == ':' && s[..|hours|] == hours && s[|hours| + 1..] == minutes;
    TwoDigits(minutes);
    if |hours| == 2 { TwoDigits(hours); } else { OneDigit(hours); }
    assert IsDigit(s[|hours| + 1]) && IsDigit(s[|hours| + 2]) && IsDigit(s[0]);
    assert |hours| == 2 ==> IsDigit(s[1]);
  }

  /** Anything else reads as midnight. */
  lemma OtherwiseMidnight(value: string)
    requires forall hours, minutes :: !ClockTime(Trim(value), hours, minutes)
    ensures ParseTime(value) == 0
  {
    var s := Trim(value);
    if |s| == 5 { SplitAtColon(s, 2); }
    if |s| == 4 { SplitAtColon(s, 1); }
  }

  lemma SplitAtColon(s: string, n: nat)
    requires 1 <= n <= 2 && |s| == n + 3 && !ClockTime(s, s[..n], s[n + 1..])
    ensures !(s[n] == ':' && IsDigit(s[0]) && IsDigit(s[n - 1]) && IsDigit(s[n + 1]) && IsDigit(s[n + 2]))
  {
    if s[n] == ':' { assert s == s[..n] + ":" + s[n + 1..]; }
  }
}
