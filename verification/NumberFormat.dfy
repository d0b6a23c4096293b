/**
 sprintf's "%1.15g" and "%1.17g" of doubles, as exact reals, and print_number's choice between them: fifteen
 significant digits if they read back as the same double, seventeen otherwise. Seventeen always do.
 */
module NumberFormat {
  import opened Common
  import opened Powers
  import opened Doubles
  import opened JsonNumbers

  // -------------------------------------------------- significant digits

  /** The exponent of the first digit. */
  function FirstDigit(x: real): (e: int)
    requires x > 0.0
    ensures Shift(Ten, 1.0, e) <= x < Shift(Ten, 1.0, e + 1)
  {
    if x >= 1.0 then LogUp(Ten, x, 1) - 1 else LogDown(Ten, x, -1)
  }

  /** A number m of `precision` digits, and the exponent of its first digit. */
  datatype Digits = Digits(m: int, exponent: int)

  /** x rounded to so many digits, ties to even. */
  function Significant(x: real, precision: nat): (d: Digits)
    requires x > 0.0 && precision > 0
    ensures d.m >= 0
  {
    var e := FirstDigit(x);
    Ordered(Ten, 0.0, x, precision - 1 - e);
    var m := Nearest(Shift(Ten, x, precision - 1 - e));
    if m >= TenTo(precision) then Digits(TenTo(precision - 1), e + 1) else Digits(m, e)
  }

  lemma {:induction false} PowersAgree(n: nat)
    ensures TenTo(n) as real == Shift(Ten, 1.0, n)
  {
    if n > 0 {
      PowersAgree(n - 1);
    }
  }

  /** x has exactly `precision` digits in front of its point. */
  lemma Fills(x: real, precision: nat) returns (y: real)
    requires x > 0.0 && precision > 0
    ensures y == Shift(Ten, x, precision - 1 - FirstDigit(x))
    ensures x == Shift(Ten, y, FirstDigit(x) - precision + 1)
    ensures TenTo(precision - 1) as real <= y < TenTo(precision) as real
  {
    var e, up := FirstDigit(x), precision - 1 - FirstDigit(x);
    y := Shift(Ten, x, up);
    Adds(Ten, x, up, -up);
    PowersAgree(precision - 1);
    PowersAgree(precision);
    Ordered(Ten, x, Shift(Ten, 1.0, e), up);
    Adds(Ten, 1.0, e, up);
    Ordered(Ten, x, Shift(Ten, 1.0, e + 1), up);
    Adds(Ten, 1.0, e + 1, up);
  }

  /** What rounding to so many digits gives, and how far it is off: half of the last digit at most. */
  lemma SignificantNear(x: real, precision: nat) returns (v: real)
    requires x > 0.0 && precision > 0
    ensures var d := Significant(x, precision);
            TenTo(precision - 1) <= d.m < TenTo(precision) && v == Shift(Ten, d.m as real, d.exponent - precision + 1)
    ensures Distance(v, x) <= Shift(Ten, 0.5, FirstDigit(x) - precision + 1)
  {
    var e, last := FirstDigit(x), FirstDigit(x) - precision + 1;
    var y := Fills(x, precision);
    var m := Nearest(y);
    v := Shift(Ten, m as real, last);
    Carried(precision, m, last);
    Gap(m as real, y, last);
  }

  /** Rounding up to one more digit moves the exponent. */
  lemma Carried(precision: nat, m: int, last: int)
    requires precision > 0
    ensures TenTo(precision) as real == 10.0 * TenTo(precision - 1) as real && 0 < TenTo(precision - 1) < TenTo(precision)
    ensures Shift(Ten, TenTo(precision - 1) as real, last + 1) == Shift(Ten, TenTo(precision) as real, last)
  {
    TenToPositive(precision - 1);
    var p := TenTo(precision - 1) as real;
    Factors(Ten, 10.0, p, last);
    Next(Ten, p, last);
  }

  lemma {:induction false} TenToPositive(n: nat)
    ensures TenTo(n) > 0
  {
    if n > 0 {
      TenToPositive(n - 1);
    }
  }

  lemma Gap(a: real, b: real, e: int)
    requires -0.5 <= a - b <= 0.5
    ensures Distance(Shift(Ten, a, e), Shift(Ten, b, e)) <= Shift(Ten, 0.5, e)
  {
    Sums(Ten, a - b, b, e);
    Sums(Ten, b - a, a, e);
    assert (a - b) + b == a && (b - a) + a == b;
    Ordered(Ten, 0.5, a - b, e);
    Ordered(Ten, 0.5, b - a, e);
  }

  // ------------------------------------------------------------- layout

  function Zeros(n: nat): (t: string)
    ensures |t| == n && AllDigits(t)
  {
    if n == 0 then "" else Zeros(n - 1) + "0"
  }

  /** "%g" leaves out the zeros behind the last other digit. */
  function StripZeros(t: string): (s: string)
    requires t != "" && AllDigits(t)
    ensures s != "" && |s| <= |t| && s[0] == t[0] && AllDigits(s)
  {
    if |t| > 1 && t[|t| - 1] == '0' then StripZeros(t[..|t| - 1]) else t
  }

  /** A decimal exponent has two digits at least. */
  function ExponentDigits(n: nat): string {
    if n < 10 then "0" + NatText(n) else NatText(n)
  }

  /** The digits s, the first of exponent e, as "%g" lays them out at this precision. */
  function LaidOut(minus: bool, s: string, e: int, precision: nat): Numeral
    requires s != ""
  {
    if e < -4 || e >= precision then
      Numeral(minus, s[..1], s[1..], Some(Exponent('e', if e < 0 then "-" else "+", ExponentDigits(if e < 0 then -e else e))))
    else if e < 0 then Numeral(minus, "0", Zeros(-e - 1) + s, None)
    else if |s| <= e + 1 then Numeral(minus, s + Zeros(e + 1 - |s|), "", None)
    else Numeral(minus, s[..e + 1], s[e + 1..], None)
  }

  function Magnitude(x: real): real { if x < 0.0 then -x else x }

  /** "%1.<precision>g" */
  function Formatted(x: real, precision: nat): Numeral
    requires precision > 0
  {
    if x == 0.0 then Numeral(false, "0", "", None)
    else
      var d := Significant(Magnitude(x), precision);
      NatTextDigits(d.m);
      LaidOut(x < 0.0, StripZeros(NatText(d.m)), d.exponent, precision)
  }

  /** print_number's choice: what sscanf reads from the shorter print decides. */
  function Printed(x: real): Numeral {
    var short := Formatted(x, 15);
    if ToDouble(NumeralValue(short)) == Finite(x) then short else Formatted(x, 17)
  }

  // ------------------------------------------------------ what it denotes

  lemma {:induction false} ZerosValue(n: nat)
    ensures DigitsValue(Zeros(n)) == 0
  {
    if n > 0 {
      ZerosValue(n - 1);
      assert Zeros(n)[..n - 1] == Zeros(n - 1);
    }
  }

  lemma ZerosShift(s: string, n: nat)
    ensures DigitsValue(s + Zeros(n)) as real == Shift(Ten, DigitsValue(s) as real, n)
  {
    ZerosValue(n);
    DigitsJoin(s, Zeros(n));
  }

  lemma LeadingZeros(n: nat, s: string)
    ensures DigitsValue(Zeros(n) + s) == DigitsValue(s)
  {
    ZerosValue(n);
    DigitsJoin(Zeros(n), s);
    Vanishes(|s|);
  }

  lemma Vanishes(e: int)
    ensures Shift(Ten, 0.0, e) == 0.0
  {
    Ordered(Ten, 0.0, 0.0, e);
  }

  /** The stripped zeros only move the point. */
  lemma {:induction false} StripShift(t: string)
    requires t != "" && AllDigits(t)
    ensures DigitsValue(t) as real == Shift(Ten, DigitsValue(StripZeros(t)) as real, |t| - |StripZeros(t)|)
    decreases |t|
  {
    if |t| > 1 && t[|t| - 1] == '0' {
      var front := t[..|t| - 1];
      StripShift(front);
      Next(Ten, DigitsValue(StripZeros(t)) as real, |front| - |StripZeros(t)|);
    }
  }

  lemma ExponentDigitsValue(n: nat)
    ensures ExponentDigits(n) != "" && AllDigits(ExponentDigits(n)) && DigitsValue(ExponentDigits(n)) == n
  {
    NatTextDigits(n);
    NatTextValue(n);
    if n < 10 {
      LeadingZeros(1, NatText(n));
      assert Zeros(1) == "0";
    }
  }

  /** n is a number of the grammar with the value of the digits s, the first of them at exponent e. */
  ghost predicate Denotes(n: Numeral, s: string, e: int) {
    && IsNumeral(n)
    && NumeralValue(n) == Shift(Ten, if n.minus then -(DigitsValue(s) as real) else DigitsValue(s) as real, e + 1 - |s|)
  }

  /** Whole and fraction together have the value of the digits. */
  lemma DenotesDigits(n: Numeral, s: string, e: int)
    requires IsNumeral(n) && DigitsValue(n.whole + n.fraction) == DigitsValue(s)
    requires ExponentValue(n.exponent) - |n.fraction| == e + 1 - |s|
    ensures Denotes(n, s, e)
  {
    PointMoves(n, DigitsValue(s) as real);
  }

  lemma ScientificDenotes(minus: bool, s: string, e: int, precision: nat)
    requires s != "" && s[0] != '0' && AllDigits(s) && (e < -4 || e >= precision)
    ensures Denotes(LaidOut(minus, s, e, precision), s, e)
  {
    ExponentDigitsValue(if e < 0 then -e else e);
    assert s[..1] + s[1..] == s;
    DenotesDigits(LaidOut(minus, s, e, precision), s, e);
  }

  lemma SmallDenotes(minus: bool, s: string, e: int, precision: nat)
    requires s != "" && s[0] != '0' && AllDigits(s) && -4 <= e < 0
    ensures Denotes(LaidOut(minus, s, e, precision), s, e)
  {
    var k := -e - 1;
    var fraction := Zeros(k) + s;
    var n := Numeral(minus, "0", fraction, None);
    assert LaidOut(minus, s, e, precision) == n;
    Behind(k, s);
    LeadingZeros(k + 1, s);
    assert AllDigits(fraction);
    DenotesDigits(n, s, e);
  }

  lemma Behind(k: nat, s: string)
    ensures "0" + (Zeros(k) + s) == Zeros(k + 1) + s
  {
    ZeroFirst(k);
  }

  lemma WholeDenotes(minus: bool, s: string, e: int, precision: nat)
    requires s != "" && s[0] != '0' && AllDigits(s) && 0 <= e < precision && |s| <= e + 1
    ensures Denotes(LaidOut(minus, s, e, precision), s, e)
  {
    var n, k := LaidOut(minus, s, e, precision), e + 1 - |s|;
    var x, y := DigitsValue(s) as real, DigitsValue(s + Zeros(k)) as real;
    ZerosShift(s, k);
    Opposite(Ten, x, k);
    assert n.whole + n.fraction == s + Zeros(k);
    PointMoves(n, y);
  }

  /** Every layout is a number of the grammar, of the value of its digits with the first at exponent e. */
  lemma LayoutDenotes(minus: bool, s: string, e: int, precision: nat)
    requires s != "" && s[0] != '0' && AllDigits(s)
    ensures Denotes(LaidOut(minus, s, e, precision), s, e) && LaidOut(minus, s, e, precision).minus == minus
  {
    if e < -4 || e >= precision {
      ScientificDenotes(minus, s, e, precision);
    } else if e < 0 {
      SmallDenotes(minus, s, e, precision);
    } else if |s| <= e + 1 {
      WholeDenotes(minus, s, e, precision);
    } else {
      assert s[..e + 1] + s[e + 1..] == s;
      DenotesDigits(LaidOut(minus, s, e, precision), s, e);
    }
  }

  lemma {:induction false} ZeroFirst(n: nat)
    ensures "0" + Zeros(n) == Zeros(n + 1)
  {
    if n > 0 {
      ZeroFirst(n - 1);
    }
  }

  lemma FormattedDenotes(x: real, precision: nat) returns (v: real)
    requires x != 0.0 && precision > 0
    ensures IsNumeral(Formatted(x, precision)) && NumeralValue(Formatted(x, precision)) == (if x < 0.0 then -v else v)
    ensures Distance(v, Magnitude(x)) <= Shift(Ten, 0.5, FirstDigit(Magnitude(x)) - precision + 1)
  {
    v := SignificantNear(Magnitude(x), precision);
    var d := Significant(Magnitude(x), precision);
    var s := StrippedDigits(d.m, d.exponent, precision);
    SignedLayout(x < 0.0, s, d.exponent, precision, v);
  }

  lemma SignedLayout(minus: bool, s: string, e: int, precision: nat, v: real)
    requires s != "" && s[0] != '0' && AllDigits(s) && v == Shift(Ten, DigitsValue(s) as real, e + 1 - |s|)
    ensures IsNumeral(LaidOut(minus, s, e, precision))
    ensures NumeralValue(LaidOut(minus, s, e, precision)) == if minus then -v else v
  {
    LayoutDenotes(minus, s, e, precision);
    Opposite(Ten, DigitsValue(s) as real, e + 1 - |s|);
  }

  /** The digits of m without the last zeros, and m in their terms. */
  lemma StrippedDigits(m: int, e: int, precision: nat) returns (s: string)
    requires precision > 0 && TenTo(precision - 1) <= m < TenTo(precision)
    ensures m >= 0 && AllDigits(NatText(m)) && s == StripZeros(NatText(m)) && s[0] != '0' && |s| <= precision
    ensures Shift(Ten, m as real, e - precision + 1) == Shift(Ten, DigitsValue(s) as real, e + 1 - |s|)
  {
    TenToPositive(precision - 1);
    var t := NatText(m);
    NatTextDigits(m);
    NatTextLead(m);
    NatTextLength(m, precision);
    NatTextValue(m);
    s := StripZeros(t);
    StripShift(t);
    Adds(Ten, DigitsValue(s) as real, precision - |s|, e - precision + 1);
  }

  // ------------------------------------------------------ reading it back

  /** Seventeen digits are off by less than one part in 2 * 10^16. */
  lemma SeventeenClose(v: real, x: real)
    requires x > 0.0 && Distance(v, x) <= Shift(Ten, 0.5, FirstDigit(x) - 16)
    ensures CLOSE * (v - x) <= x && CLOSE * (x - v) <= x
  {
    HalfOfLast(FirstDigit(x));
    BoundScales(CLOSE, v, x, Shift(Ten, 0.5, FirstDigit(x) - 16));
  }

  lemma BoundScales(c: real, v: real, x: real, half: real)
    requires c > 0.0 && Distance(v, x) <= half && c * half <= x
    ensures c * (v - x) <= x && c * (x - v) <= x
  {
    var up, down := half - (v - x), half - (x - v);
    assert c * up >= 0.0 && c * down >= 0.0;
  }

  lemma HalfOfLast(e: int)
    ensures CLOSE * Shift(Ten, 0.5, e - 16) == Shift(Ten, 1.0, e)
  {
    Factors(Ten, CLOSE, 0.5, e - 16);
    assert CLOSE * 0.5 == 10_000_000_000_000_000.0;
    TenToSixteen();
    Adds(Ten, 1.0, 16, e - 16);
  }

  lemma TenToSixteen()
    ensures Shift(Ten, 1.0, 16) == 10_000_000_000_000_000.0
  {
    assert Shift(Ten, 1.0, 4) == 10_000.0;
    assert Shift(Ten, 1.0, 8) == 100_000_000.0;
    assert Shift(Ten, 1.0, 12) == 1_000_000_000_000.0;
  }

  /** Seventeen digits identify a double. */
  lemma SeventeenSuffice(x: real)
    requires IsDouble(x)
    ensures Round(NumeralValue(Formatted(x, 17))) == x
  {
    if x == 0.0 {
      ZeroReads();
    } else {
      DigitsSuffice(x, 17);
    }
  }

  lemma DigitsSuffice(x: real, precision: nat)
    requires IsDouble(x) && x != 0.0 && precision == 17
    ensures Round(NumeralValue(Formatted(x, precision))) == x
  {
    var v := FormattedDenotes(x, precision);
    var y := Magnitude(x);
    var m, place := Positive(x);
    SeventeenClose(v, y);
    CloseRounds(v, y, m, place);
    RoundSigned(x, v);
  }

  lemma RoundSigned(x: real, v: real)
    requires x != 0.0 && Round(v) == Magnitude(x)
    ensures Round(if x < 0.0 then -v else v) == x
  {
    if v < 0.0 {
      Ordered(Two, 0.0, -v, -LastPlace(-v));
      Ordered(Two, 0.0, 1.0, LastPlace(-v));
      var n := Nearest(Shift(Two, -v, -LastPlace(-v)));
      Ordered(Two, n as real, 0.0, LastPlace(-v));
    }
  }

  lemma ZeroReads()
    ensures IsNumeral(Numeral(false, "0", "", None)) && NumeralValue(Numeral(false, "0", "", None)) == 0.0
  {
    Vanishes(0);
    assert "0"[..0] == "";
  }

  lemma Positive(x: real) returns (m: int, place: int)
    requires IsDouble(x) && x != 0.0
    ensures Represents(Magnitude(x), m, place) && 0 < m < TWO_53 && MIN_PLACE <= place <= MAX_PLACE
  {
    m, place :| -TWO_53 < m < TWO_53 && MIN_PLACE <= place <= MAX_PLACE && Represents(x, m, place);
    Ordered(Two, m as real, 0.0, place);
    Ordered(Two, 0.0, m as real, place);
    if m < 0 {
      Opposite(Two, m as real, place);
      m := -m;
    }
  }

  /** What is printed for a double is a number of the grammar that strtod reads as that double. */
  lemma PrintedReads(x: real)
    requires IsDouble(x)
    ensures IsNumeral(Printed(x)) && ToDouble(NumeralValue(Printed(x))) == Finite(x)
  {
    PrintedIsNumeral(x);
    SeventeenSuffice(x);
    DoubleBound(x);
  }

  lemma PrintedIsNumeral(x: real)
    ensures IsNumeral(Printed(x))
  {
    if x == 0.0 {
      ZeroReads();
    } else {
      var v := FormattedDenotes(x, 15);
      v := FormattedDenotes(x, 17);
    }
  }

  // ------------------------------------------------------ it fits the buffer

  lemma {:induction false} TwoBelowTen(x: real, n: int)
    requires x > 0.0 && n >= 0
    ensures 0.0 < Shift(Two, x, n) <= Shift(Ten, x, n) && Shift(Two, x, -n) >= Shift(Ten, x, -n) > 0.0
    decreases n
  {
    if n > 0 {
      TwoBelowTen(x, n - 1);
    }
  }

  /** The decimal exponents of doubles have four digits at most. */
  lemma ExponentBound(y: real, m: int, place: int)
    requires Represents(y, m, place) && 0 < m < TWO_53 && MIN_PLACE <= place <= MAX_PLACE && y > 0.0
    ensures -1075 <= FirstDigit(y) <= 1000
  {
    var e := FirstDigit(y);
    Below(y, m, place);
    Above(y, m, place);
    if e > 1000 {
      Grows(Ten, 1.0, 1000, e);
    }
    if e < -1075 {
      Grows(Ten, 1.0, e + 1, -1075);
      Grows(Ten, 1.0, -1075, -1074);
    }
  }

  lemma Below(y: real, m: int, place: int)
    requires Represents(y, m, place) && 0 < m < TWO_53 && place <= MAX_PLACE
    ensures y < Shift(Ten, 1.0, 1000)
  {
    var limit := 10_000_000_000_000_000.0;
    Ordered(Two, m as real, limit, place);
    Grows(Two, limit, place, MAX_PLACE);
    TwoBelowTen(limit, MAX_PLACE);
    TenToSixteen();
    Adds(Ten, 1.0, 16, MAX_PLACE);
    Grows(Ten, 1.0, 16 + MAX_PLACE, 1000);
  }

  lemma Above(y: real, m: int, place: int)
    requires Represents(y, m, place) && 0 < m && MIN_PLACE <= place
    ensures y >= Shift(Ten, 1.0, -1074)
  {
    Ordered(Two, m as real, 1.0, place);
    Grows(Two, 1.0, MIN_PLACE, place);
    TwoBelowTen(1.0, 1074);
  }

  lemma LayoutShort(minus: bool, s: string, e: int, precision: nat)
    requires 0 < |s| <= precision <= 17 && -1100 <= e <= 1100
    ensures |NumeralText(LaidOut(minus, s, e, precision))| <= 25
  {
    if e < -4 || e >= precision {
      var n := if e < 0 then -e else e;
      assert TenTo(4) == 10_000;
      NatTextShort(n, 4);
      assert |ExponentDigits(n)| <= 4;
    }
  }

  lemma FormattedShort(x: real, precision: nat)
    requires IsDouble(x) && 0 < precision <= 17
    ensures |NumeralText(Formatted(x, precision))| <= 25
  {
    if x != 0.0 {
      var y := Magnitude(x);
      var m, place := Positive(x);
      ExponentBound(y, m, place);
      var v := SignificantNear(y, precision);
      var d := Significant(y, precision);
      var s := StrippedDigits(d.m, d.exponent, precision);
      LayoutShort(x < 0.0, s, d.exponent, precision);
    }
  }

  /** What is printed for a double fits print_number's buffer. */
  lemma PrintedShort(x: real)
    requires IsDouble(x)
    ensures 0 < |NumeralText(Printed(x))| <= 25
  {
    FormattedShort(x, 15);
    FormattedShort(x, 17);
    PrintedIsNumeral(x);
  }

  // ------------------------------------------------------------- integers

  lemma {:induction false} NatTextBounds(n: nat)
    requires n > 0
    ensures TenTo(|NatText(n)| - 1) <= n < TenTo(|NatText(n)|)
  {
    if n >= 10 {
      NatTextBounds(n / 10);
    } else {
      assert TenTo(1) == 10;
    }
  }

  lemma FirstDigitIs(x: real, e: int)
    requires x > 0.0 && Shift(Ten, 1.0, e) <= x < Shift(Ten, 1.0, e + 1)
    ensures FirstDigit(x) == e
  {
    var found := FirstDigit(x);
    if found < e {
      Grows(Ten, 1.0, found + 1, e);
    } else if e < found {
      Grows(Ten, 1.0, e + 1, found);
    }
  }

  /** n with j zeros behind it. */
  lemma {:induction false} ZerosBehind(n: nat, j: nat) returns (m: nat)
    requires n > 0
    ensures NatText(m) == NatText(n) + Zeros(j) && m as real == Shift(Ten, n as real, j)
    decreases j
  {
    if j == 0 {
      m := n;
      assert NatText(n) + "" == NatText(n);
    } else {
      var rest := ZerosBehind(n, j - 1);
      m := 10 * rest;
      assert rest > 0 by {
        Ordered(Ten, 0.0, n as real, j - 1);
      }
      AppendsZero(rest, m);
      Assoc(NatText(n), Zeros(j - 1), "0");
    }
  }

  lemma AppendsZero(n: nat, m: nat)
    requires n > 0 && m == 10 * n
    ensures NatText(m) == NatText(n) + "0"
  {
  }

  lemma {:induction false} StripMore(t: string, j: nat)
    requires t != "" && AllDigits(t)
    ensures StripZeros(t + Zeros(j)) == StripZeros(t)
    decreases j
  {
    if j == 0 {
      assert t + "" == t;
    } else {
      StripMore(t, j - 1);
      assert (t + Zeros(j))[..|t + Zeros(j)| - 1] == t + Zeros(j - 1);
    }
  }

  lemma {:induction false} StripBack(t: string)
    requires t != "" && AllDigits(t)
    ensures StripZeros(t) + Zeros(|t| - |StripZeros(t)|) == t
    decreases |t|
  {
    if |t| > 1 && t[|t| - 1] == '0' {
      StripBack(t[..|t| - 1]);
    }
  }

  lemma IntegerDigits(n: nat) returns (d: Digits)
    requires 0 < n < INT_BOUND
    ensures d == Significant(n as real, 15) && d.exponent == |NatText(n)| - 1 < 15
    ensures NatText(d.m) == NatText(n) + Zeros(15 - |NatText(n)|)
  {
    var k := |NatText(n)|;
    IntegerWidth(n, k);
    var m := ZerosBehind(n, 15 - k);
    d := SignificantInteger(n, m, k, 15);
  }

  lemma IntegerWidth(n: nat, k: nat)
    requires 0 < n < INT_BOUND && k == |NatText(n)|
    ensures 0 < k <= 15 && FirstDigit(n as real) == k - 1
  {
    assert TenTo(15) == INT_BOUND;
    NatTextShort(n, 15);
    NatTextBounds(n);
    PowersAgree(k - 1);
    PowersAgree(k);
    FirstDigitIs(n as real, k - 1);
  }

  lemma SignificantInteger(n: nat, m: nat, k: nat, precision: nat) returns (d: Digits)
    requires n > 0 && 0 < k <= precision && FirstDigit(n as real) == k - 1 && m as real == Shift(Ten, n as real, precision - k)
    ensures d == Significant(n as real, precision) && d == Digits(m, k - 1)
  {
    var y := Fills(n as real, precision);
    assert y == m as real && Nearest(m as real) == m;
    d := Significant(n as real, precision);
  }

  /** Integers below 10^15 are printed as plain digits. */
  lemma IntegersPlain(n: int)
    requires -INT_BOUND < n < INT_BOUND
    ensures IsDouble(n as real) && NumeralText(Printed(n as real)) == IntText(n)
  {
    IntegerIsDouble(n);
    ToDoubleKeeps(n as real);
    IntegerPrinted(n, if n < 0 then -n else n);
  }

  lemma IntegerIsDouble(n: int)
    requires -INT_BOUND < n < INT_BOUND
    ensures IsDouble(n as real)
  {
    assert Represents(n as real, n, 0);
  }

  lemma IntegerPrinted(n: int, magnitude: nat)
    requires -INT_BOUND < n < INT_BOUND && magnitude == (if n < 0 then -n else n) && ToDouble(n as real) == Finite(n as real)
    ensures NumeralText(Printed(n as real)) == IntText(n)
  {
    if n == 0 {
      assert NatText(0) == "0";
    } else {
      IntegerFormat(n, magnitude);
    }
    PlainValue(n < 0, magnitude);
    ShortSuffices(n as real, Numeral(n < 0, NatText(magnitude), "", None));
    PlainText(n < 0, magnitude);
  }

  lemma ShortSuffices(x: real, n: Numeral)
    requires Formatted(x, 15) == n && ToDouble(NumeralValue(n)) == Finite(x)
    ensures Printed(x) == n
  {
  }

  lemma PlainValue(minus: bool, n: nat)
    ensures NumeralValue(Numeral(minus, NatText(n), "", None)) == if minus then -(n as real) else n as real
  {
    NatTextValue(n);
    Vanishes(0);
  }

  lemma PlainText(minus: bool, n: nat)
    ensures NumeralText(Numeral(minus, NatText(n), "", None)) == (if minus then "-" else "") + NatText(n)
  {
    assert NatText(n) + ("" + "") == NatText(n);
  }

  lemma IntegerFormat(n: int, magnitude: nat)
    requires -INT_BOUND < n < INT_BOUND && n != 0 && magnitude == (if n < 0 then -n else n)
    ensures Formatted(n as real, 15) == Numeral(n < 0, NatText(magnitude), "", None)
  {
    assert Magnitude(n as real) == magnitude as real;
    var d := IntegerDigits(magnitude);
    IntegerLayout(n < 0, magnitude, d.m, d.exponent);
  }

  lemma IntegerLayout(minus: bool, n: nat, m: nat, e: int)
    requires 0 <= e < 15 && e == |NatText(n)| - 1 && NatText(m) == NatText(n) + Zeros(15 - |NatText(n)|)
    ensures AllDigits(NatText(m))
    ensures LaidOut(minus, StripZeros(NatText(m)), e, 15) == Numeral(minus, NatText(n), "", None)
  {
    NatTextDigits(n);
    NatTextDigits(m);
    StripMore(NatText(n), 15 - |NatText(n)|);
    WholeLayout(minus, NatText(n), e);
  }

  lemma WholeLayout(minus: bool, t: string, e: int)
    requires t != "" && AllDigits(t) && 0 <= e < 15 && |t| == e + 1
    ensures LaidOut(minus, StripZeros(t), e, 15) == Numeral(minus, t, "", None)
  {
    StripBack(t);
  }

  // ---------------------------------------------------------- the style

  lemma {:induction false} StripEnds(t: string)
    requires t != "" && AllDigits(t)
    ensures |StripZeros(t)| > 1 ==> StripZeros(t)[|StripZeros(t)| - 1] != '0'
    decreases |t|
  {
    if |t| > 1 && t[|t| - 1] == '0' {
      StripEnds(t[..|t| - 1]);
    }
  }

  /** The magnitude lies in the decade of its first digit. */
  lemma InDecade(m: int, e: int, precision: nat, v: real)
    requires precision > 0 && TenTo(precision - 1) <= m < TenTo(precision) && v == Shift(Ten, m as real, e - precision + 1)
    ensures Shift(Ten, 1.0, e) <= v < Shift(Ten, 1.0, e + 1)
  {
    var last := e - precision + 1;
    PowersAgree(precision - 1);
    PowersAgree(precision);
    Ordered(Ten, m as real, TenTo(precision - 1) as real, last);
    Ordered(Ten, m as real, TenTo(precision) as real, last);
    Adds(Ten, 1.0, precision - 1, last);
    Adds(Ten, 1.0, precision, last);
  }

  lemma DecadeBelow(v: real, e: int, f: int)
    requires Shift(Ten, 1.0, e) <= v < Shift(Ten, 1.0, e + 1)
    ensures v < Shift(Ten, 1.0, f) <==> e < f
  {
    if e < f {
      Grows(Ten, 1.0, e + 1, f);
    } else {
      Grows(Ten, 1.0, f, e);
    }
  }

  lemma ExponentStyle(n: nat)
    ensures |ExponentDigits(n)| >= 2 && (|ExponentDigits(n)| > 2 ==> ExponentDigits(n)[0] != '0')
  {
    if n >= 10 {
      NatTextLead(n);
      NatTextLead(n / 10);
    }
  }

  /** The digits behind a print. */
  lemma FormattedIs(x: real, precision: nat) returns (s: string, e: int, v: real)
    requires x != 0.0 && precision > 0
    ensures s != "" && AllDigits(s) && s[0] != '0' && (|s| > 1 ==> s[|s| - 1] != '0')
    ensures Formatted(x, precision) == LaidOut(x < 0.0, s, e, precision) && Shift(Ten, 1.0, e) <= v < Shift(Ten, 1.0, e + 1)
    ensures v == Shift(Ten, DigitsValue(s) as real, e + 1 - |s|)
    ensures Distance(v, Magnitude(x)) <= Shift(Ten, 0.5, FirstDigit(Magnitude(x)) - precision + 1)
  {
    v := SignificantNear(Magnitude(x), precision);
    var d := Significant(Magnitude(x), precision);
    e := d.exponent;
    InDecade(d.m, e, precision, v);
    s := StrippedDigits(d.m, e, precision);
    StripEnds(NatText(d.m));
  }

  /**
   The style of "%g", by section 7.21.6.1 of the C standard, for a magnitude v: an exponent is written exactly if v is
   below 10^-4 or needs more digits in front of the point than the precision; then one digit other than zero stands in
   front of the point and the exponent has a sign and two digits, or as many as it needs. No fraction ends in a zero.
   */
  ghost predicate HasStyle(n: Numeral, v: real, precision: nat) {
    && (n.exponent.Some? <==> v < Shift(Ten, 1.0, -4) || v >= Shift(Ten, 1.0, precision))
    && (n.fraction != "" ==> n.fraction[|n.fraction| - 1] != '0')
    && (n.exponent.Some? ==> |n.whole| == 1 && n.whole[0] != '0' && ExponentHasStyle(n.exponent.value))
  }

  ghost predicate ExponentHasStyle(e: Exponent) {
    e.mark == 'e' && (e.sign == "+" || e.sign == "-") && |e.digits| >= 2 && (|e.digits| > 2 ==> e.digits[0] != '0')
  }

  /** What is printed at a precision has the style of "%g" and lies within half a unit of its last digit. */
  lemma PrintfStyle(x: real, precision: nat) returns (v: real)
    requires x != 0.0 && precision > 0
    ensures Distance(v, Magnitude(x)) <= Shift(Ten, 0.5, FirstDigit(Magnitude(x)) - precision + 1)
    ensures var n := Formatted(x, precision);
            && IsNumeral(n) && NumeralValue(n) == (if x < 0.0 then -v else v) && n.minus == (x < 0.0)
            && HasStyle(n, v, precision)
  {
    var s, e;
    s, e, v := FormattedIs(x, precision);
    DecadeBelow(v, e, -4);
    DecadeBelow(v, e, precision);
    SignedLayout(x < 0.0, s, e, precision, v);
    LaidOutStyle(x < 0.0, s, e, precision, v);
  }

  lemma LaidOutStyle(minus: bool, s: string, e: int, precision: nat, v: real)
    requires s != "" && AllDigits(s) && s[0] != '0' && (|s| > 1 ==> s[|s| - 1] != '0')
    requires (v < Shift(Ten, 1.0, -4) <==> e < -4) && (v < Shift(Ten, 1.0, precision) <==> e < precision)
    ensures LaidOut(minus, s, e, precision).minus == minus && HasStyle(LaidOut(minus, s, e, precision), v, precision)
  {
    if e < -4 || e >= precision {
      ExponentStyle(if e < 0 then -e else e);
      assert s[..1][0] == s[0];
      assert |s| > 1 ==> s[1..][|s| - 2] == s[|s| - 1];
    } else {
      PlainStyle(minus, s, e, precision);
    }
  }

  lemma PlainStyle(minus: bool, s: string, e: int, precision: nat)
    requires s != "" && AllDigits(s) && s[0] != '0' && (|s| > 1 ==> s[|s| - 1] != '0') && -4 <= e < precision
    ensures var n := LaidOut(minus, s, e, precision);
            n.minus == minus && n.exponent.None? && (n.fraction != "" ==> n.fraction[|n.fraction| - 1] != '0')
  {
    if e < 0 {
      assert (Zeros(-e - 1) + s)[-e - 1 + |s| - 1] == s[|s| - 1];
    }
  }

  /** 10^14 in fifteen digits. */
  lemma OneAndZeros() returns (m: nat)
    ensures m == TenTo(14) && AllDigits(NatText(m)) && StripZeros(NatText(m)) == "1"
  {
    m := ZerosBehind(1, 14);
    PowersAgree(14);
    NatTextDigits(m);
    OneStripped(NatText(m), NatText(1), 14);
  }

  lemma OneStripped(t: string, one: string, j: nat)
    requires one == NatText(1) && t == one + Zeros(j)
    ensures one == "1" && AllDigits(t) && StripZeros(t) == "1"
  {
    StripMore(one, j);
  }

  lemma ScaledDown(x: real, m: nat)
    requires x == INT_BOUND as real && m == TenTo(14)
    ensures TenTo(15) == INT_BOUND && x > 0.0 && FirstDigit(x) == 15 && Significant(x, 15) == Digits(m, 15)
  {
    assert TenTo(15) == INT_BOUND;
    PowersAgree(15);
    PowersAgree(16);
    FirstDigitIs(x, 15);
    assert Shift(Ten, x, -1) == m as real && Nearest(m as real) == m;
  }

  lemma OneExponent(one: string, exponent: string) returns (n: Numeral)
    requires one == "1" && exponent == "15"
    ensures n == LaidOut(false, one, 15, 15) && n == Numeral(false, one, "", Some(Exponent('e', "+", exponent)))
    ensures IsNumeral(n) && NumeralValue(n) == INT_BOUND as real
  {
    n := LaidOut(false, one, 15, 15);
    FifteenText();
    LayoutDenotes(false, one, 15, 15);
    PowersAgree(15);
    assert TenTo(15) == INT_BOUND;
    assert one[..1] == one && one[1..] == "";
  }

  lemma FifteenText()
    ensures NatText(15) == "15" && ExponentDigits(15) == "15" && DigitsValue("1") == 1
  {
    assert NatText(1) == "1";
    NatTextValue(1);
  }

  lemma OneText(n: Numeral)
    requires n == Numeral(false, "1", "", Some(Exponent('e', "+", "15")))
    ensures NumeralText(n) == "1e+15"
  {
    assert ExponentText(n.exponent) == "e+15";
    assert "" + ("1" + ("" + "e+15")) == "1e+15";
  }

  /** Fifteen digits are the first choice: the least integer that has more of them is printed with an exponent. */
  lemma FirstWithExponent()
    ensures IsDouble(INT_BOUND as real) && NumeralText(Printed(INT_BOUND as real)) == "1e+15"
  {
    var x := INT_BOUND as real;
    var m := OneAndZeros();
    ScaledDown(x, m);
    var n := OneExponent("1", "15");
    OneText(n);
    assert Represents(x, INT_BOUND, 0);
    ToDoubleKeeps(x);
    ShortSuffices(x, n);
  }

  /** The text print_number writes. */
  function NumberPrint(d: Double): string {
    if d.Finite? then NumeralText(Printed(d.x)) else "null"
  }

  /** Doubles, infinities and NaN: what a number item can hold. */
  ghost predicate Holds(d: Double) { d.Finite? ==> IsDouble(d.x) }
}
