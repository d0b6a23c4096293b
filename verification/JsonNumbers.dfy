/**
 JSON numbers: their grammar and values, what strtod makes of the characters parse_number copies, and decimal digits.
 */
module JsonNumbers {
  import opened Common
  import opened Powers
  import opened Doubles

  predicate IsDigit(c: char) { '0' <= c <= '9' }

  predicate IsNumberChar(c: char) {
    IsDigit(c) || c == '+' || c == '-' || c == 'e' || c == 'E' || c == '.'
  }

  /** sizeof(number_c_string) - 1: at most this many characters are copied for strtod. */
  const MAX_NUMBER_LENGTH: int := 63

  /** How many characters from p on the copy loop takes. */
  function RunLength(s: string, p: nat, limit: nat): (n: nat)
    requires p <= |s|
    ensures p + n <= |s| && n <= limit
    decreases |s| - p
  {
    if limit > 0 && p < |s| && IsNumberChar(s[p]) then 1 + RunLength(s, p + 1, limit - 1) else 0
  }

  function NumberText(s: string, p: nat): string
    requires p <= |s|
  {
    s[p..p + RunLength(s, p, MAX_NUMBER_LENGTH)]
  }

  function DigitsEnd(t: string, p: nat): (q: nat)
    requires p <= |t|
    ensures p <= q <= |t|
    decreases |t| - p
  {
    if p < |t| && IsDigit(t[p]) then DigitsEnd(t, p + 1) else p
  }

  function DigitValue(c: char): nat {
    if IsDigit(c) then c as int - '0' as int else 0
  }

  /** The value of a text of digits. */
  function DigitsValue(t: string): nat {
    if t == "" then 0 else DigitsValue(t[..|t| - 1]) * 10 + DigitValue(t[|t| - 1])
  }

  ghost predicate AllDigits(t: string) { forall i :: 0 <= i < |t| ==> IsDigit(t[i]) }

  // ------------------------------------------------------------ grammar

  datatype Exponent = Exponent(mark: char, sign: string, digits: string)

  /** Section 6 of RFC 8259. An empty `fraction` stands for a number without a point. */
  datatype Numeral = Numeral(minus: bool, whole: string, fraction: string, exponent: Option<Exponent>)

  ghost predicate IsExponent(e: Exponent) {
    && (e.mark == 'e' || e.mark == 'E') && (e.sign == "" || e.sign == "+" || e.sign == "-")
    && e.digits != "" && AllDigits(e.digits)
  }

  ghost predicate IsNumeral(n: Numeral) {
    && n.whole != "" && AllDigits(n.whole) && (n.whole[0] == '0' ==> |n.whole| == 1)
    && AllDigits(n.fraction) && (n.exponent.Some? ==> IsExponent(n.exponent.value))
  }

  function FractionText(fraction: string): string {
    if fraction == "" then "" else "." + fraction
  }

  function ExponentText(exponent: Option<Exponent>): string {
    match exponent
    case None => ""
    case Some(e) => [e.mark] + (e.sign + e.digits)
  }

  function NumeralText(n: Numeral): string {
    (if n.minus then "-" else "") + (n.whole + (FractionText(n.fraction) + ExponentText(n.exponent)))
  }

  function ExponentValue(exponent: Option<Exponent>): int {
    match exponent
    case None => 0
    case Some(e) =>
      var v: int := DigitsValue(e.digits);
      if e.sign == "-" then -v else v
  }

  function NumeralValue(n: Numeral): real {
    var magnitude := DigitsValue(n.whole) as real + Shift(Ten, DigitsValue(n.fraction) as real, -|n.fraction|);
    Shift(Ten, if n.minus then -magnitude else magnitude, ExponentValue(n.exponent))
  }

  // ------------------------------------------------------------- strtod

  datatype Conversion = NoConversion | Converted(value: Double, length: nat)

  function SkipSign(t: string, p: nat): (q: nat)
    requires p <= |t|
    ensures p <= q <= |t| && q <= p + 1
  {
    if p < |t| && (t[p] == '+' || t[p] == '-') then p + 1 else p
  }

  /** The exponent part, if it is complete: its end and its value. */
  function ExponentPart(t: string, p: nat): (r: (nat, int))
    requires p <= |t|
    ensures p <= r.0 <= |t|
  {
    if p < |t| && (t[p] == 'e' || t[p] == 'E') then
      var start := SkipSign(t, p + 1);
      var end := DigitsEnd(t, start);
      if end == start then (p, 0)
      else
        var v: int := DigitsValue(t[start..end]);
        (end, if t[p + 1] == '-' then -v else v)
    else (p, 0)
  }

  /** m times ten to the scale, and how many characters say so. */
  datatype Decimal = NoDecimal | Decimal(m: real, scale: int, length: nat)

  /** The longest prefix of the form sign, digits with an optional point, exponent. */
  function ScanDecimal(t: string): (r: Decimal)
    ensures r.Decimal? ==> 0 < r.length <= |t|
  {
    var start := SkipSign(t, 0);
    var whole := DigitsEnd(t, start);
    var point := whole < |t| && t[whole] == '.';
    var fraction := if point then DigitsEnd(t, whole + 1) else whole;
    var digits := t[start..whole] + if point then t[whole + 1..fraction] else "";
    if digits == "" then NoDecimal
    else
      var exponent := ExponentPart(t, fraction);
      var m := DigitsValue(digits) as real;
      Decimal(if t[0] == '-' then -m else m, exponent.1 - if point then fraction - (whole + 1) else 0, exponent.0)
  }

  /** strtod: what the text begins with, as the nearest double. */
  function Strtod(t: string): (r: Conversion)
    ensures r.Converted? ==> 0 < r.length <= |t|
  {
    match ScanDecimal(t)
    case NoDecimal => NoConversion
    case Decimal(m, scale, length) => Converted(ToDouble(Shift(Ten, m, scale)), length)
  }

  // ------------------------------------------------------------ printing

  function NatText(n: nat): (t: string)
    ensures t != ""
  {
    var last := '0' + (n % 10) as char;
    if n < 10 then [last] else NatText(n / 10) + [last]
  }

  lemma {:induction false} NatTextDigits(n: nat)
    ensures forall i :: 0 <= i < |NatText(n)| ==> IsDigit(NatText(n)[i])
  {
    if n >= 10 {
      NatTextDigits(n / 10);
    }
  }

  /** "%1.15g" of an integer below 10^15 in magnitude: plain decimal digits. */
  function IntText(n: int): string {
    if n < 0 then "-" + NatText(-n) else NatText(n)
  }

  const INT_BOUND: int := 1_000_000_000_000_000

  function TenTo(k: nat): nat {
    if k == 0 then 1 else 10 * TenTo(k - 1)
  }

  lemma {:induction false} NatTextLead(n: nat)
    ensures NatText(n)[0] == '0' ==> n == 0
    decreases n
  {
    if n >= 10 {
      NatTextLead(n / 10);
    }
  }

  lemma {:induction false} NatTextLength(n: nat, k: nat)
    requires k > 0 && TenTo(k - 1) <= n < TenTo(k)
    ensures |NatText(n)| == k
    decreases n
  {
    if k == 1 {
      assert TenTo(1) == 10;
    } else {
      AtLeastTen(k - 1);
      NatTextLength(n / 10, k - 1);
    }
  }

  lemma {:induction false} AtLeastTen(k: nat)
    requires k > 0
    ensures TenTo(k) >= 10
  {
    if k > 1 {
      AtLeastTen(k - 1);
    }
  }

  lemma {:induction false} NatTextShort(n: nat, k: nat)
    requires k > 0 && n < TenTo(k)
    ensures |NatText(n)| <= k
    decreases n
  {
    if n >= 10 {
      NatTextShort(n / 10, k - 1);
    }
  }

  // ---------------------------------------------------------- round trip

  lemma {:induction false} NatTextValue(n: nat)
    ensures DigitsValue(NatText(n)) == n
  {
    var t := NatText(n);
    if n >= 10 {
      NatTextValue(n / 10);
      assert t[..|t| - 1] == NatText(n / 10);
    } else {
      assert t[..0] == "";
    }
  }

  // ------------------------------------------------------------- values

  lemma {:induction false} DigitsJoin(a: string, b: string)
    ensures DigitsValue(a + b) as real == Shift(Ten, DigitsValue(a) as real, |b|) + DigitsValue(b) as real
    decreases |b|
  {
    if b == "" {
      assert a + b == a;
    } else {
      var front := b[..|b| - 1];
      DigitsJoin(a, front);
      assert (a + b)[..|a + b| - 1] == a + front;
      Next(Ten, DigitsValue(a) as real, |front|);
    }
  }

  /** The digits as one integer, scaled down, are the number with its point. */
  lemma PointMoves(n: Numeral, x: real)
    requires x == DigitsValue(n.whole + n.fraction) as real
    ensures NumeralValue(n) == Shift(Ten, if n.minus then -x else x, ExponentValue(n.exponent) - |n.fraction|)
  {
    var w, f, k := DigitsValue(n.whole) as real, DigitsValue(n.fraction) as real, |n.fraction|;
    DigitsJoin(n.whole, n.fraction);
    Sums(Ten, Shift(Ten, w, k), f, -k);
    Adds(Ten, w, k, -k);
    Opposite(Ten, x, -k);
    Adds(Ten, if n.minus then -x else x, -k, ExponentValue(n.exponent));
  }
}
