/**
 The parser on every JSON text of RFC 8259: it is accepted exactly if it is nested within the limit, its numbers fit
 the conversion buffer and its surrogates are paired, and then it is read as the value the grammar gives it, with
 numbers as doubles and strings as C strings.
 */
module JsonReading {
  import opened Common
  import opened Powers
  import opened Doubles
  import opened Json
  import opened JsonStrings
  import opened JsonNumbers
  import opened JsonParser
  import opened JsonGrammar

  /** If `ok`, read as v up to `end`; otherwise refused, or left off inside of a number that is too long. */
  ghost predicate Verdict<T>(ok: bool, s: string, r: Parsed<T>, v: T, end: nat) {
    if ok then r == Ok(v, end) else r.Fail? || (r.next < end <= |s| && IsNumberChar(s[r.next]))
  }

  /** The text t stands in s from p to q, and more behind it. */
  ghost predicate Stands(s: string, p: nat, t: string, q: nat) {
    At(s, p, t) && q == p + |t| && q < |s|
  }

  lemma AtSplit3(s: string, p: nat, a: string, b: string, c: string)
    requires At(s, p, a + (b + c))
    ensures At(s, p, a) && At(s, p + |a|, b) && At(s, p + |a| + |b|, c)
  {
    AtSplit(s, p, a, b + c);
    AtSplit(s, p + |a|, b, c);
  }

  lemma AtSlice(s: string, p: nat, t: string)
    requires At(s, p, t)
    ensures s[p..p + |t|] == t
  {
  }

  lemma NotAt(s: string, p: nat, t: string)
    requires t != "" && p < |s| && s[p] != t[0]
    ensures !At(s, p, t)
  {
    if p + |t| <= |s| {
      assert s[p + 0] != t[0];
    }
  }

  lemma NotALiteral(s: string, p: nat, c: char)
    requires p < |s| && s[p] == c && c != 'n' && c != 'f' && c != 't'
    ensures !At(s, p, "null") && !At(s, p, "false") && !At(s, p, "true")
  {
    NotAt(s, p, "null");
    NotAt(s, p, "false");
    NotAt(s, p, "true");
  }

  // --------------------------------------------------------- white space

  /** White space t, standing at p in front of a visible character, is skipped. */
  lemma {:induction false} SpaceSkipped(s: string, p: nat, t: string, q: nat)
    requires Stands(s, p, t, q) && AllSpace(t) && s[q] > ' '
    ensures SkipBlank(s, p) == q && SkipWs(s, p) == q
    decreases |t|
  {
    if t != "" {
      assert t == [t[0]] + t[1..];
      AtSplit(s, p, [t[0]], t[1..]);
      AtIndex(s, p, t, 0);
      SpaceSkipped(s, p + 1, t[1..], q);
    }
  }

  lemma Visible(s: string, p: nat)
    requires p < |s| && s[p] > ' '
    ensures SkipBlank(s, p) == p && SkipWs(s, p) == p
  {
  }

  // ------------------------------------------------------------- strings

  /** The sizing pass finds the closing quote of every string. */
  lemma {:induction false} UnitsScan(s: string, p: nat, u: Units, end: nat)
    requires IsUnits(u) && Stands(s, p, UnitsText(u), end) && s[end] == '\"'
    ensures Scan(s, p).End? && Scan(s, p).at == end
    decreases u
  {
    match u
    case NoUnits =>
    case Verbatim(c, next) =>
      VerbatimAt(s, p, c, next);
      UnitsScan(s, p + 1, next, end);
    case Short(c, next) =>
      ShortAt(s, p, c, next);
      UnitsScan(s, p + 2, next, end);
    case Hex(digits, next) =>
      HexAt(s, p, digits, next);
      UnitsScan(s, p + 6, next, end);
      ScanPlain(s, p + 2, 4);
  }

  lemma VerbatimAt(s: string, p: nat, c: char, next: Units)
    requires At(s, p, UnitsText(Verbatim(c, next)))
    ensures p + 1 <= |s| && s[p] == c && At(s, p + 1, UnitsText(next)) && |UnitsText(Verbatim(c, next))| == 1 + |UnitsText(next)|
  {
    AtSplit(s, p, [c], UnitsText(next));
    AtIndex(s, p, [c], 0);
  }

  lemma ShortAt(s: string, p: nat, c: char, next: Units)
    requires At(s, p, UnitsText(Short(c, next)))
    ensures p + 2 <= |s| && s[p] == '\\' && s[p + 1] == c && At(s, p + 2, UnitsText(next))
    ensures |UnitsText(Short(c, next))| == 2 + |UnitsText(next)|
  {
    AtSplit(s, p, ['\\', c], UnitsText(next));
    AtIndex(s, p, ['\\', c], 0);
    AtIndex(s, p, ['\\', c], 1);
  }

  lemma HexReads(s: string, p: nat, digits: string)
    requires IsHex(digits) && At(s, p, digits)
    ensures p + 4 <= |s| && ParseHex4(s, p) == Word(digits)
  {
    WordIsMeant(digits);
    WordReads(s, p, digits, Word(digits));
  }

  lemma HexAt(s: string, p: nat, digits: string, next: Units)
    requires IsHex(digits) && At(s, p, UnitsText(Hex(digits, next)))
    ensures p + 6 <= |s| && s[p] == '\\' && s[p + 1] == 'u' && ParseHex4(s, p + 2) == Word(digits)
    ensures At(s, p + 6, UnitsText(next)) && |UnitsText(Hex(digits, next))| == 6 + |UnitsText(next)|
    ensures forall i :: p + 2 <= i < p + 6 ==> s[i] != '\\' && s[i] != '\"'
  {
    AtSplit3(s, p, "\\u", digits, UnitsText(next));
    AtIndex(s, p, "\\u", 0);
    AtIndex(s, p, "\\u", 1);
    HexReads(s, p + 2, digits);
    forall i | 0 <= i < 4
      ensures s[p + 2 + i] == digits[i]
    {
      AtIndex(s, p + 2, digits, i);
    }
    assert s[p + 2] == digits[0] && s[p + 3] == digits[1] && s[p + 4] == digits[2] && s[p + 5] == digits[3];
  }

  /** The writing pass gives the string the grammar spells, and fails exactly at an unpaired surrogate. */
  lemma {:induction false} UnitsWrite(s: string, p: nat, u: Units, end: nat)
    requires IsUnits(u) && Stands(s, p, UnitsText(u), end)
    ensures Unescape(s, p, end).ok == Paired(u)
    ensures Paired(u) ==> Unescape(s, p, end).bytes == Spelled(u)
    decreases u, 1
  {
    match u
    case NoUnits =>
    case Verbatim(c, next) =>
      VerbatimAt(s, p, c, next);
      UnitsWrite(s, p + 1, next, end);
    case Short(c, next) =>
      ShortAt(s, p, c, next);
      ShortAgrees(c);
      UnitsWrite(s, p + 2, next, end);
    case Hex(digits, next) =>
      HexWrites(s, p, digits, next, end);
  }

  lemma {:induction false} HexWrites(s: string, p: nat, digits: string, next: Units, end: nat)
    requires IsHex(digits) && IsUnits(next) && Stands(s, p, UnitsText(Hex(digits, next)), end)
    ensures Unescape(s, p, end).ok == Paired(Hex(digits, next))
    ensures Paired(Hex(digits, next)) ==> Unescape(s, p, end).bytes == Spelled(Hex(digits, next))
    decreases Hex(digits, next), 0
  {
    HexAt(s, p, digits, next);
    if !IsHighSurrogate(Word(digits)) {
      UnitsWrite(s, p + 6, next, end);
      SingleWrites(s, p, digits, end);
    } else if StartsLow(next) {
      LowWrites(s, p + 6, next, end);
      HighThenHex(s, p, digits, next, end);
    } else if next.Hex? {
      HexAt(s, p + 6, next.digits, next.next);
      HighThenHex(s, p, digits, next, end);
    } else {
      LoneHigh(s, p, digits, next, end);
    }
  }

  /** The second half of a pair, and what is behind it. */
  lemma {:induction false} LowWrites(s: string, p: nat, u: Units, end: nat)
    requires u.Hex? && IsUnits(u) && Stands(s, p, UnitsText(u), end)
    ensures Escapes(s, p, u.digits, end) && Unescape(s, p + 6, end).ok == Paired(u.next)
    ensures Paired(u.next) ==> Unescape(s, p + 6, end).bytes == Spelled(u.next)
    decreases u, 0
  {
    HexAt(s, p, u.digits, u.next);
    UnitsWrite(s, p + 6, u.next, end);
  }

  /** At p, and before `end`, there is the escape of the code unit `digits`. */
  ghost predicate Escapes(s: string, p: nat, digits: string, end: nat) {
    p + 6 <= end < |s| && s[p] == '\\' && s[p + 1] == 'u' && ParseHex4(s, p + 2) == Word(digits)
  }

  lemma SingleWrites(s: string, p: nat, digits: string, end: nat)
    requires Escapes(s, p, digits, end) && !IsHighSurrogate(Word(digits))
    ensures if IsLowSurrogate(Word(digits)) then !Unescape(s, p, end).ok
            else Unescape(s, p, end) == Prepend(Utf8(Word(digits)), Unescape(s, p + 6, end))
  {
    if !IsLowSurrogate(Word(digits)) {
      LiteralWrites(s, p, end, Word(digits), 6);
    }
  }

  lemma Joined(high: nat, low: nat)
    requires IsHighSurrogate(high) && IsLowSurrogate(low)
    ensures high % 0x400 == high - 0xD800 && low % 0x400 == low - 0xDC00
  {
  }

  lemma HighThenHex(s: string, p: nat, digits: string, next: Units, end: nat)
    requires IsHighSurrogate(Word(digits)) && next.Hex?
    requires Escapes(s, p, digits, end) && Escapes(s, p + 6, next.digits, end)
    ensures if StartsLow(next)
            then Unescape(s, p, end) == Prepend(Utf8(CodePoint(Word(digits), Word(next.digits))), Unescape(s, p + 12, end))
            else !Unescape(s, p, end).ok
  {
    if StartsLow(next) {
      Joined(Word(digits), Word(next.digits));
      LiteralWrites(s, p, end, CodePoint(Word(digits), Word(next.digits)), 12);
    }
  }

  lemma LoneHigh(s: string, p: nat, digits: string, next: Units, end: nat)
    requires Escapes(s, p, digits, end) && IsHighSurrogate(Word(digits)) && !next.Hex? && IsUnits(next)
    requires Stands(s, p + 6, UnitsText(next), end)
    ensures !Unescape(s, p, end).ok
  {
    NoSecond(s, p + 6, next, end);
    assert Utf16Literal(s, p, end).BadLiteral?;
  }

  lemma NoSecond(s: string, q: nat, next: Units, end: nat)
    requires !next.Hex? && IsUnits(next) && Stands(s, q, UnitsText(next), end)
    ensures end - q >= 6 ==> s[q] != '\\' || s[q + 1] != 'u'
  {
    match next
    case NoUnits =>
    case Verbatim(c, rest) => AtIndex(s, q, UnitsText(next), 0);
    case Short(c, rest) => AtIndex(s, q, UnitsText(next), 1);
  }

  /** A string literal is read as the string it spells, up to its first NUL, exactly if its surrogates are paired. */
  lemma StringRead(s: string, p: nat, u: Units, end: nat)
    requires IsUnits(u) && Stands(s, p, Quoted(u), end)
    ensures p < |s| && s[p] == '\"'
    ensures if Paired(u) then ParseString(s, p) == Ok(CStr(Spelled(u)), end) else ParseString(s, p).Fail?
  {
    var close := QuotesAt(s, p, UnitsText(u), end);
    UnitsScan(s, p + 1, u, close);
    UnitsWrite(s, p + 1, u, close);
  }

  lemma QuotesAt(s: string, p: nat, body: string, end: nat) returns (close: nat)
    requires Stands(s, p, "\"" + (body + "\""), end)
    ensures close == p + 1 + |body| && end == close + 1 && p < |s| && s[p] == '\"' && s[close] == '\"'
    ensures Stands(s, p + 1, body, close)
  {
    AtSplit3(s, p, "\"", body, "\"");
    AtIndex(s, p, "\"", 0);
    close := p + 1 + |body|;
    AtIndex(s, close, "\"", 0);
  }

  // ------------------------------------------------------------- numbers

  /** The digits from p to q, and no digit behind them. */
  lemma {:induction false} DigitsStop(t: string, p: nat, q: nat)
    requires p <= q <= |t| && (forall i :: p <= i < q ==> IsDigit(t[i])) && (q < |t| ==> !IsDigit(t[q]))
    ensures DigitsEnd(t, p) == q
    decreases q - p
  {
    if p < q {
      DigitsStop(t, p + 1, q);
    }
  }

  lemma DigitsRun(t: string, p: nat, digits: string)
    requires At(t, p, digits) && AllDigits(digits) && (p + |digits| < |t| ==> !IsDigit(t[p + |digits|]))
    ensures DigitsEnd(t, p) == p + |digits| && t[p..p + |digits|] == digits
  {
    AtSlice(t, p, digits);
    forall i | p <= i < p + |digits|
      ensures IsDigit(t[i])
    {
      AtIndex(t, p, digits, i - p);
    }
    DigitsStop(t, p, p + |digits|);
  }

  /** The parts of a number's text. */
  lemma NumeralParts(n: Numeral) returns (t: string, start: nat, point: nat, mark: nat)
    requires IsNumeral(n)
    ensures t == NumeralText(n) && start == (if n.minus then 1 else 0) && start < |t|
    ensures (n.minus ==> t[0] == '-') && IsDigit(t[start])
    ensures At(t, start, n.whole) && point == start + |n.whole|
    ensures At(t, point, FractionText(n.fraction)) && mark == point + |FractionText(n.fraction)|
    ensures At(t, mark, ExponentText(n.exponent)) && |t| == mark + |ExponentText(n.exponent)|
  {
    t := NumeralText(n);
    var sign := if n.minus then "-" else "";
    start := |sign|;
    point, mark := FourParts(t, sign, n.whole, FractionText(n.fraction), ExponentText(n.exponent));
    AtIndex(t, start, n.whole, 0);
    if n.minus {
      AtIndex(t, 0, sign, 0);
    }
  }

  lemma FourParts(t: string, a: string, b: string, c: string, d: string) returns (q: nat, r: nat)
    requires t == a + (b + (c + d))
    ensures At(t, 0, a) && At(t, |a|, b) && q == |a| + |b| && At(t, q, c) && r == q + |c| && At(t, r, d) && |t| == r + |d|
  {
    AtSplit(t, 0, a, b + (c + d));
    AtSplit3(t, |a|, b, c, d);
    q, r := |a| + |b|, |a| + |b| + |c|;
  }

  lemma ExponentReads(t: string, p: nat, exponent: Option<Exponent>)
    requires exponent.Some? ==> IsExponent(exponent.value)
    requires At(t, p, ExponentText(exponent)) && |t| == p + |ExponentText(exponent)|
    ensures ExponentPart(t, p) == (|t|, ExponentValue(exponent))
    ensures p < |t| ==> t[p] != '.' && !IsDigit(t[p])
  {
    if exponent.Some? {
      var e := exponent.value;
      var digitsAt := MarkAndSign(t, p, e);
      DigitsRun(t, digitsAt, e.digits);
    }
  }

  lemma MarkAndSign(t: string, p: nat, e: Exponent) returns (digitsAt: nat)
    requires IsExponent(e) && At(t, p, [e.mark] + (e.sign + e.digits)) && |t| == p + |[e.mark] + (e.sign + e.digits)|
    ensures p + 1 < |t| && t[p] == e.mark && SkipSign(t, p + 1) == digitsAt && (t[p + 1] == '-' <==> e.sign == "-")
    ensures At(t, digitsAt, e.digits) && digitsAt + |e.digits| == |t|
  {
    AtSplit3(t, p, [e.mark], e.sign, e.digits);
    AtIndex(t, p, [e.mark], 0);
    digitsAt := p + 1 + |e.sign|;
    AtIndex(t, digitsAt, e.digits, 0);
    SignSkipped(t, p + 1, e.sign, digitsAt);
  }

  lemma SignSkipped(t: string, p: nat, sign: string, q: nat)
    requires At(t, p, sign) && (sign == "" || sign == "+" || sign == "-") && q == p + |sign| < |t| && IsDigit(t[q])
    ensures SkipSign(t, p) == q && (t[p] == '-' <==> sign == "-")
  {
    if sign != "" {
      AtIndex(t, p, sign, 0);
    }
  }

  lemma FractionReads(t: string, point: nat, fraction: string, mark: nat)
    requires AllDigits(fraction) && At(t, point, FractionText(fraction)) && mark == point + |FractionText(fraction)|
    requires mark < |t| ==> t[mark] != '.' && !IsDigit(t[mark])
    ensures point < |t| ==> !IsDigit(t[point])
    ensures fraction == "" <==> !(point < |t| && t[point] == '.')
    ensures fraction != "" ==> DigitsEnd(t, point + 1) == mark && mark == point + 1 + |fraction| && t[point + 1..mark] == fraction
  {
    if fraction != "" {
      AtSplit(t, point, ".", fraction);
      AtIndex(t, point, ".", 0);
      DigitsRun(t, point + 1, fraction);
    }
  }

  /** strtod uses up every number of the grammar and gives the double nearest to its value. */
  lemma NumeralReads(n: Numeral)
    requires IsNumeral(n)
    ensures Strtod(NumeralText(n)) == Converted(ToDouble(NumeralValue(n)), |NumeralText(n)|)
  {
    var t, start, point, mark := NumeralScanned(n);
    var m, scale := PartsConvert(t, n, start, point, mark);
    var value := PointMoved(n, m, scale);
    StrtodGives(t, m, scale, value);
  }

  lemma PointMoved(n: Numeral, m: real, scale: int) returns (value: real)
    requires m == (var x := DigitsValue(n.whole + n.fraction) as real; if n.minus then -x else x)
    requires scale == ExponentValue(n.exponent) - |n.fraction|
    ensures value == NumeralValue(n) && value == Shift(Ten, m, scale)
  {
    PointMoves(n, DigitsValue(n.whole + n.fraction) as real);
    value := NumeralValue(n);
  }

  lemma StrtodGives(t: string, m: real, scale: int, x: real)
    requires ScanDecimal(t) == Decimal(m, scale, |t|) && Shift(Ten, m, scale) == x
    ensures Strtod(t) == Converted(ToDouble(x), |t|)
  {
  }

  /** What strtod finds on its way through a number's text. */
  ghost predicate Scanned(t: string, n: Numeral, start: nat, point: nat, mark: nat) {
    && start <= point <= mark <= |t| && start < |t| && SkipSign(t, 0) == start && (t[0] == '-' <==> n.minus)
    && DigitsEnd(t, start) == point && t[start..point] == n.whole && n.whole != ""
    && (n.fraction == "" <==> !(point < |t| && t[point] == '.'))
    && (if n.fraction == "" then mark == point
        else DigitsEnd(t, point + 1) == mark && mark == point + 1 + |n.fraction| && t[point + 1..mark] == n.fraction)
    && ExponentPart(t, mark) == (|t|, ExponentValue(n.exponent))
  }

  lemma NumeralScanned(n: Numeral) returns (t: string, start: nat, point: nat, mark: nat)
    requires IsNumeral(n)
    ensures t == NumeralText(n) && Scanned(t, n, start, point, mark)
  {
    t, start, point, mark := NumeralParts(n);
    PartsScanned(t, n, start, point, mark);
  }

  lemma PartsScanned(t: string, n: Numeral, start: nat, point: nat, mark: nat)
    requires n.whole != "" && AllDigits(n.whole) && AllDigits(n.fraction) && (n.exponent.Some? ==> IsExponent(n.exponent.value))
    requires start == (if n.minus then 1 else 0) && start < |t| && (n.minus ==> t[0] == '-') && IsDigit(t[start])
    requires At(t, start, n.whole) && point == start + |n.whole|
    requires At(t, point, FractionText(n.fraction)) && mark == point + |FractionText(n.fraction)|
    requires At(t, mark, ExponentText(n.exponent)) && |t| == mark + |ExponentText(n.exponent)|
    ensures Scanned(t, n, start, point, mark)
  {
    ExponentReads(t, mark, n.exponent);
    FractionReads(t, point, n.fraction, mark);
    DigitsRun(t, start, n.whole);
    assert n.fraction == "" ==> mark == point;
  }

  lemma PartsConvert(t: string, n: Numeral, start: nat, point: nat, mark: nat) returns (m: real, scale: int)
    requires Scanned(t, n, start, point, mark)
    ensures m == (var x := DigitsValue(n.whole + n.fraction) as real; if n.minus then -x else x)
    ensures scale == ExponentValue(n.exponent) - |n.fraction| && ScanDecimal(t) == Decimal(m, scale, |t|)
  {
    var x := DigitsValue(n.whole + n.fraction) as real;
    m, scale := if n.minus then -x else x, ExponentValue(n.exponent) - |n.fraction|;
    if n.fraction == "" {
      assert n.whole + "" == n.whole;
    }
  }

  lemma NumeralChars(n: Numeral)
    requires IsNumeral(n)
    ensures forall i :: 0 <= i < |NumeralText(n)| ==> IsNumberChar(NumeralText(n)[i])
  {
  }

  /** The copy loop takes all of a run of number characters that is short enough, and otherwise stops inside of it. */
  lemma {:induction false} RunLengthIs(s: string, p: nat, n: nat, limit: nat)
    requires p + n < |s| && (forall i :: p <= i < p + n ==> IsNumberChar(s[i])) && !IsNumberChar(s[p + n])
    ensures RunLength(s, p, limit) == Min(n, limit)
    decreases n
  {
    if n > 0 && limit > 0 {
      RunLengthIs(s, p + 1, n - 1, limit - 1);
    }
  }

  lemma NumberRead(s: string, p: nat, n: Numeral, end: nat)
    requires IsNumeral(n) && Stands(s, p, NumeralText(n), end) && !IsNumberChar(s[end])
    ensures p < |s| && (s[p] == '-' || IsDigit(s[p]))
    ensures Verdict(|NumeralText(n)| <= MAX_NUMBER_LENGTH, s, ParseNumber(s, p), Number(ToDouble(NumeralValue(n))), end)
  {
    NumeralStands(s, p, n, end);
    NumeralReads(n);
    RunRead(s, p, NumeralText(n), ToDouble(NumeralValue(n)), end);
  }

  lemma RunRead(s: string, p: nat, t: string, x: Double, end: nat)
    requires Stands(s, p, t, end) && (forall i :: p <= i < end ==> IsNumberChar(s[i])) && !IsNumberChar(s[end])
    requires Strtod(t) == Converted(x, |t|)
    ensures Verdict(|t| <= MAX_NUMBER_LENGTH, s, ParseNumber(s, p), Number(x), end)
  {
    RunLengthIs(s, p, |t|, MAX_NUMBER_LENGTH);
    if |t| <= MAX_NUMBER_LENGTH {
      AtSlice(s, p, t);
      Uses(s, p, t, x);
    } else {
      LeavesSome(s, p);
    }
  }

  lemma Uses(s: string, p: nat, t: string, x: Double)
    requires p <= |s| && NumberText(s, p) == t && Strtod(t) == Converted(x, |t|)
    ensures ParseNumber(s, p) == Ok(Number(x), p + |t|)
  {
  }

  lemma LeavesSome(s: string, p: nat)
    requires p <= |s|
    ensures ParseNumber(s, p).Ok? ==> p < ParseNumber(s, p).next <= p + RunLength(s, p, MAX_NUMBER_LENGTH)
  {
  }

  lemma NumeralStands(s: string, p: nat, n: Numeral, end: nat)
    requires IsNumeral(n) && Stands(s, p, NumeralText(n), end)
    ensures p < end && (s[p] == '-' || IsDigit(s[p]))
    ensures forall i :: p <= i < end ==> IsNumberChar(s[i])
  {
    var t, start, point, mark := NumeralParts(n);
    AtIndex(s, p, t, 0);
    NumeralChars(n);
    forall i | p <= i < end
      ensures IsNumberChar(s[i])
    {
      AtIndex(s, p, t, i - p);
      assert IsNumberChar(t[i - p]);
    }
  }

  // ------------------------------------------------------------- scalars

  /** A text begins with a visible character that no bracket closes with. */
  lemma TextStart(t: Syntax)
    requires IsText(t)
    ensures TextOf(t) != "" && TextOf(t)[0] > ' ' && TextOf(t)[0] != ']' && TextOf(t)[0] != '}'
  {
    if t.DecimalText? {
      var text, start, point, mark := NumeralParts(t.n);
    }
  }

  lemma ScalarRead(s: string, p: nat, t: Syntax, end: nat, depth: nat, limit: nat, room: int) returns (r: Parsed<Json>)
    requires room == limit - depth
    requires !t.ArrayText? && !t.ObjectText? && IsText(t) && Terminated(s)
    requires Stands(s, p, TextOf(t), end) && !IsNumberChar(s[end])
    ensures p < |s| && r == ParseValue(s, p, depth, limit)
    ensures Verdict(Fits(t, room), s, r, Held(Meaning(t)), end)
    ensures !Fits(t, room) && r.Ok? ==> t.DecimalText?
  {
    match t {
      case NullText =>
      case FalseText =>
        AtIndex(s, p, "false", 0);
        NotAt(s, p, "null");
      case TrueText =>
        AtIndex(s, p, "true", 0);
        NotAt(s, p, "null");
        NotAt(s, p, "false");
      case StringText(u) =>
        StringRead(s, p, u, end);
        NotALiteral(s, p, '\"');
      case DecimalText(n) =>
        NumberRead(s, p, n, end);
        NotALiteral(s, p, s[p]);
    }
    r := ParseValue(s, p, depth, limit);
  }

  // ------------------------------------------------ the parser's turns

  /** What follows an entry of a list: a comma and the other entries, read with `rest`, or what ends the list. */
  ghost predicate Follows<T>(s: string, q: nat, end: nat, last: bool, goodRest: bool, rest: Parsed<T>, others: T) {
    && q < |s| && end < |s|
    && if last then s[q] != ',' && q == end && goodRest else s[q] == ',' && q + 1 < |s| && Verdict(goodRest, s, rest, others, end)
  }

  /** One turn of the element loop. */
  lemma ItemsTurn(s: string, p: nat, start: nat, next: nat, q: nat, end: nat, depth: nat, limit: nat, good: bool,
                  goodRest: bool, value: Json, others: Items, v: Parsed<Json>, rest: Parsed<Items>) returns (r: Parsed<Items>)
    requires Terminated(s) && p + 1 < |s| && SkipWs(s, p + 1) == start && next <= end
    requires v == ParseValue(s, start, depth, limit) && Verdict(good, s, v, value, next)
    requires next < |s| && SkipWs(s, next) == q && Follows(s, q, end, others.NoItems?, goodRest, rest, others)
    requires others.Item? ==> rest == ParseItems(s, q, depth, limit)
    ensures r == ParseItems(s, p, depth, limit) && Verdict(good && goodRest, s, r, Item(value, others), end)
  {
    r := ParseItems(s, p, depth, limit);
    if !good && v.Ok? {
      Visible(s, v.next);
    }
  }

  /** One turn of the member loop. */
  lemma MembersTurn(s: string, p: nat, nameAt: nat, start: nat, next: nat, q: nat, end: nat, depth: nat, limit: nat,
                    named: bool, good: bool, goodRest: bool, name: string, value: Json, others: Members,
                    v: Parsed<Json>, rest: Parsed<Members>) returns (r: Parsed<Members>)
    requires Terminated(s) && p + 1 < |s| && SkipWs(s, p + 1) == nameAt && start < |s| && next <= end
    requires if named then ParseName(s, nameAt) == Ok(name, start) else ParseName(s, nameAt).Fail?
    requires v == ParseValue(s, start, depth, limit) && Verdict(good, s, v, value, next)
    requires next < |s| && SkipWs(s, next) == q && Follows(s, q, end, others.NoMembers?, goodRest, rest, others)
    requires others.Member? ==> rest == ParseMembers(s, q, depth, limit)
    ensures r == ParseMembers(s, p, depth, limit)
    ensures Verdict(named && good && goodRest, s, r, Member(name, value, others), end)
  {
    r := ParseMembers(s, p, depth, limit);
    if !good && v.Ok? {
      Visible(s, v.next);
    }
  }

  // ------------------------------------------------------------- arrays

  /** A value of a list with the white space around it. */
  lemma Laid(s: string, at: nat, before: string, text: string, after: string, rest: string)
    returns (start: nat, next: nat, tail: nat)
    requires At(s, at, before + (text + (after + rest))) && at + |before + (text + (after + rest))| < |s|
    ensures start == at + |before| && Stands(s, at, before, start) && Stands(s, start, text, next)
    ensures Stands(s, next, after, tail) && At(s, tail, rest) && tail + |rest| == at + |before + (text + (after + rest))|
  {
    AtSplit3(s, at, before, text, after + rest);
    start, next, tail := at + |before|, at + |before| + |text|, at + |before| + |text| + |after|;
    AtSplit(s, next, after, rest);
  }

  /** The first element's value is what white space leads to. */
  lemma ElementStart(s: string, from: nat, space: string, at: nat, e: Elements, close: nat)
    requires Stands(s, from, space, at) && AllSpace(space)
    requires IsElements(e) && e.Element? && Stands(s, at, ElementsText(e), close)
    ensures var start := at + |e.before|; start < |s| && SkipWs(s, from) == start && SkipWs(s, start) == start && s[start] != ']'
  {
    var start := at + |e.before|;
    AtSplit3(s, at, e.before, TextOf(e.value), e.after + MoreElements(e.next));
    TextStart(e.value);
    AtIndex(s, start, TextOf(e.value), 0);
    Visible(s, start);
    SpacesSkipped(s, from, space, at, e.before, start);
  }

  lemma SpacesSkipped(s: string, p: nat, a: string, q: nat, b: string, end: nat)
    requires Stands(s, p, a, q) && Stands(s, q, b, end) && AllSpace(a) && AllSpace(b) && s[end] > ' '
    ensures SkipWs(s, p) == end
  {
    var t := a + b;
    forall i | 0 <= i < |t|
      ensures s[p + i] == t[i] && IsSpace(t[i])
    {
      if i < |a| {
        AtIndex(s, p, a, i);
      } else {
        AtIndex(s, q, b, i - |a|);
      }
    }
    SpaceSkipped(s, p, t, end);
  }

  /** What follows a value: white space up to a visible character that no number goes on with. */
  lemma AfterValue(s: string, next: nat, after: string, q: nat)
    requires Stands(s, next, after, q) && AllSpace(after) && s[q] > ' ' && !IsNumberChar(s[q])
    ensures SkipWs(s, next) == q && !IsNumberChar(s[next])
  {
    SpaceSkipped(s, next, after, q);
    if after != "" {
      AtIndex(s, next, after, 0);
      assert IsSpace(after[0]);
    }
  }

  /** At q, behind an element, the list ends at `close` or goes on with a comma. */
  ghost predicate ElementsFrom(s: string, q: nat, e: Elements, close: nat) {
    && q < |s| && close < |s| && s[close] == ']' && IsElements(e)
    && if e.NoElements? then q == close
       else s[q] == ',' && q + 1 < |s| && Stands(s, q + 1, ElementsText(e), close) && SkipWs(s, q + 1) == q + 1 + |e.before|
  }

  lemma ElementStep(s: string, at: nat, e: Elements, close: nat) returns (start: nat, next: nat, q: nat)
    requires IsElements(e) && e.Element? && Stands(s, at, ElementsText(e), close) && s[close] == ']'
    ensures start == at + |e.before| && Stands(s, start, TextOf(e.value), next) && !IsNumberChar(s[next])
    ensures SkipWs(s, next) == q && next <= q <= close && ElementsFrom(s, q, e.next, close)
  {
    start, next, q := Laid(s, at, e.before, TextOf(e.value), e.after, MoreElements(e.next));
    if e.next.Element? {
      AtSplit(s, q, ",", ElementsText(e.next));
      AtIndex(s, q, ",", 0);
      ElementStart(s, q + 1, "", q + 1, e.next, close);
    }
    AfterValue(s, next, e.after, q);
  }

  lemma {:induction false} ReadElements(s: string, p: nat, at: nat, e: Elements, close: nat, depth: nat, limit: nat, room: int)
    returns (r: Parsed<Items>)
    requires room == limit - depth
    requires Terminated(s) && IsElements(e) && e.Element? && Stands(s, at, ElementsText(e), close) && s[close] == ']'
    requires depth <= limit && p + 1 < |s| && SkipWs(s, p + 1) == at + |e.before|
    ensures r == ParseItems(s, p, depth, limit)
    ensures Verdict(FitsElements(e, room), s, r,
                    HeldItems(ElementsMeaning(e)), close)
    decreases e, 1
  {
    var start, next, q := ElementStep(s, at, e, close);
    var v := ReadText(s, start, e.value, next, depth, limit, room);
    var rest := ReadMoreElements(s, q, e.next, close, depth, limit, room);
    r := ElementTurn(s, p, start, e, next, q, close, depth, limit, room, v, rest);
  }

  /** What the elements behind a comma are read as. */
  ghost predicate MoreElementsRead(s: string, q: nat, e: Elements, close: nat, depth: nat, limit: nat, room: int, rest: Parsed<Items>)
    requires Terminated(s)
  {
    q < |s| && if e.NoElements? then q == close && s[q] != ','
    else s[q] == ',' && q + 1 < |s| && rest == ParseItems(s, q, depth, limit)
         && Verdict(FitsElements(e, room), s, rest,
                    HeldItems(ElementsMeaning(e)), close)
  }

  lemma {:induction false} ReadMoreElements(s: string, q: nat, e: Elements, close: nat, depth: nat, limit: nat, room: int)
    returns (rest: Parsed<Items>)
    requires room == limit - depth
    requires Terminated(s) && ElementsFrom(s, q, e, close) && depth <= limit
    ensures MoreElementsRead(s, q, e, close, depth, limit, room, rest)
    decreases e, 2
  {
    if e.NoElements? {
      rest := Fail(0);
    } else {
      var at := q + 1;
      rest := ReadElements(s, q, at, e, close, depth, limit, room);
    }
  }

  lemma ElementTurn(s: string, p: nat, start: nat, e: Elements, next: nat, q: nat, close: nat, depth: nat, limit: nat, room: int,
                    v: Parsed<Json>, rest: Parsed<Items>) returns (r: Parsed<Items>)
    requires room == limit - depth
    requires Terminated(s) && e.Element? && depth <= limit && p + 1 < |s| && SkipWs(s, p + 1) == start < |s|
    requires next < |s| && SkipWs(s, next) == q && next <= q <= close < |s|
    requires v == ParseValue(s, start, depth, limit)
    requires Verdict(Fits(e.value, room), s, v, Held(Meaning(e.value)), next)
    requires MoreElementsRead(s, q, e.next, close, depth, limit, room, rest)
    ensures r == ParseItems(s, p, depth, limit)
    ensures Verdict(FitsElements(e, room), s, r,
                    HeldItems(ElementsMeaning(e)), close)
  {
    var good := Fits(e.value, room);
    var goodRest := FitsElements(e.next, room);
    r := ItemsTurn(s, p, start, next, q, close, depth, limit, good, goodRest, Held(Meaning(e.value)),
                   HeldItems(ElementsMeaning(e.next)), v, rest);
  }

  /** The brackets of an array or an object, with the white space behind the opening one. */
  ghost predicate Bracketed(s: string, p: nat, open: char, space: string, body: string, close: char, end: nat) {
    && p < |s| && s[p] == open && Stands(s, p + 1, space, p + 1 + |space|) && p + 1 + |space| + |body| == end - 1
    && Stands(s, p + 1 + |space|, body, end - 1) && s[end - 1] == close && end < |s|
  }

  lemma BracketsAt(s: string, p: nat, open: char, space: string, body: string, close: char, end: nat)
    requires Stands(s, p, [open] + (space + (body + [close])), end)
    ensures Bracketed(s, p, open, space, body, close, end)
  {
    AtSplit(s, p, [open], space + (body + [close]));
    AtIndex(s, p, [open], 0);
    AtSplit3(s, p + 1, space, body, [close]);
    AtIndex(s, p + 1 + |space| + |body|, [close], 0);
  }

  lemma {:induction false} ReadArray(s: string, p: nat, space: string, e: Elements, end: nat, depth: nat, limit: nat, less: int,
                                     good: bool, held: Items) returns (r: Parsed<Json>)
    requires less == limit - depth - 1 >= -1 && Terminated(s) && AllSpace(space) && IsElements(e)
    requires good == (less >= 0 && FitsElements(e, less)) && held == HeldItems(ElementsMeaning(e))
    requires Bracketed(s, p, '[', space, ElementsText(e), ']', end)
    ensures r == ParseArray(s, p, depth, limit)
    ensures if good then r == Ok(Array(held), end) else r.Fail?
    decreases e, 4
  {
    if less < 0 {
      r := ParseArray(s, p, depth, limit);
    } else if e.NoElements? {
      SpaceSkipped(s, p + 1, space, end - 1);
      r := EmptyArray(s, p, end - 1, depth, limit);
    } else {
      r := ReadFullArray(s, p, space, e, end, depth, limit, less, good, held);
    }
  }

  lemma {:induction false} ReadFullArray(s: string, p: nat, space: string, e: Elements, end: nat, depth: nat, limit: nat, less: int,
                                         good: bool, held: Items) returns (r: Parsed<Json>)
    requires less == limit - depth - 1 && less >= 0
    requires Terminated(s) && AllSpace(space) && IsElements(e) && !e.NoElements?
    requires good == FitsElements(e, less) && held == HeldItems(ElementsMeaning(e))
    requires Bracketed(s, p, '[', space, ElementsText(e), ']', end)
    ensures r == ParseArray(s, p, depth, limit)
    ensures if good then r == Ok(Array(held), end) else r.Fail?
    decreases e, 3
  {
    var at, close := p + 1 + |space|, end - 1;
    var before, inner, found;
    r, before, inner, found := ArrayOpens(s, p, space, at, e, close, depth, limit);
    ReadElementsAs(s, before, at, e, close, inner, limit, less, good, held, found, r);
  }

  /** An opening bracket, and where the list behind it starts. */
  lemma ArrayOpens(s: string, p: nat, space: string, at: nat, e: Elements, close: nat, depth: nat, limit: nat)
    returns (r: Parsed<Json>, before: nat, inner: nat, list: Parsed<Items>)
    requires Terminated(s) && p < |s| && s[p] == '[' && depth < limit && Stands(s, p + 1, space, at) && AllSpace(space)
    requires IsElements(e) && !e.NoElements? && Stands(s, at, ElementsText(e), close)
    ensures r == ParseArray(s, p, depth, limit) && inner == depth + 1
    ensures before + 1 < |s| && SkipWs(s, before + 1) == at + |e.before| && list == ParseItems(s, before, inner, limit)
    ensures list.Fail? ==> r == Fail(list.at)
    ensures list.Ok? ==> list.next < |s| && r == if s[list.next] == ']' then Ok(Array(list.value), list.next + 1) else Fail(list.next)
  {
    ElementStart(s, p + 1, space, at, e, close);
    var empty;
    r, empty, before, inner, list := ArrayIs(s, p, depth, limit);
  }

  /** The list that is found is read as what is held. */
  lemma {:induction false} ReadElementsAs(s: string, p: nat, at: nat, e: Elements, close: nat, depth: nat, limit: nat, room: int,
                                        good: bool, held: Items, found: Parsed<Items>, r: Parsed<Json>)
    requires room == limit - depth && depth <= limit
    requires Terminated(s) && IsElements(e) && !e.NoElements? && Stands(s, at, ElementsText(e), close) && s[close] == ']'
    requires p + 1 < |s| && SkipWs(s, p + 1) == at + |e.before| && found == ParseItems(s, p, depth, limit)
    requires good == FitsElements(e, room) && held == HeldItems(ElementsMeaning(e))
    requires found.Fail? ==> r == Fail(found.at)
    requires found.Ok? ==> found.next < |s| && r == if s[found.next] == ']' then Ok(Array(found.value), found.next + 1) else Fail(found.next)
    ensures if good then r == Ok(Array(held), close + 1) else r.Fail?
    decreases e, 2
  {
    var list := ReadElements(s, p, at, e, close, depth, limit, room);
    ArrayComesOut(s, r, found, good, held, close);
  }

  /** What the closing bracket makes of the list. */
  lemma ArrayComesOut(s: string, r: Parsed<Json>, list: Parsed<Items>, good: bool, held: Items, close: nat)
    requires close < |s| && s[close] == ']' && Verdict(good, s, list, held, close)
    requires list.Fail? ==> r == Fail(list.at)
    requires list.Ok? ==> list.next < |s| && r == if s[list.next] == ']' then Ok(Array(list.value), list.next + 1) else Fail(list.next)
    ensures if good then r == Ok(Array(held), close + 1) else r.Fail?
  {
  }

  lemma EmptyArray(s: string, p: nat, close: nat, depth: nat, limit: nat) returns (r: Parsed<Json>)
    requires Terminated(s) && p < |s| && s[p] == '[' && p + 1 < |s| && SkipWs(s, p + 1) == close && s[close] == ']'
    ensures r == ParseArray(s, p, depth, limit) && if depth < limit then r == Ok(Array(NoItems), close + 1) else r.Fail?
  {
    r := ParseArray(s, p, depth, limit);
  }

  // ------------------------------------------------------------- objects

  /** A member's text behind its name. */
  function AfterName(f: Fields): string
    requires f.Field?
  {
    f.beforeColon + (":" + (f.afterColon + (TextOf(f.value) + (f.after + MoreFields(f.next)))))
  }

  lemma FieldStart(s: string, from: nat, space: string, at: nat, f: Fields, close: nat)
    requires Stands(s, from, space, at) && AllSpace(space)
    requires IsFields(f) && f.Field? && Stands(s, at, FieldsText(f), close)
    ensures var start := at + |f.before|; start < |s| && SkipWs(s, from) == start && SkipWs(s, start) == start && s[start] != '}'
  {
    var start := at + |f.before|;
    AtSplit3(s, at, f.before, Quoted(f.name), AfterName(f));
    AtIndex(s, start, Quoted(f.name), 0);
    Visible(s, start);
    SpacesSkipped(s, from, space, at, f.before, start);
  }

  /** A member's name, its colon and where its value starts. */
  lemma NameStep(s: string, at: nat, f: Fields, close: nat) returns (nameAt: nat, start: nat)
    requires Terminated(s) && IsFields(f) && f.Field? && Stands(s, at, FieldsText(f), close)
    ensures nameAt == at + |f.before| && nameAt < |s| && start < |s|
    ensures if Paired(f.name) then ParseName(s, nameAt) == Ok(CStr(Spelled(f.name)), start) else ParseName(s, nameAt).Fail?
    ensures At(s, start, TextOf(f.value) + (f.after + MoreFields(f.next)))
    ensures start + |TextOf(f.value) + (f.after + MoreFields(f.next))| == close
  {
    var tail := TextOf(f.value) + (f.after + MoreFields(f.next));
    nameAt := at + |f.before|;
    AtSplit3(s, at, f.before, Quoted(f.name), AfterName(f));
    TextStart(f.value);
    start := NameRead(s, nameAt, f.name, f.beforeColon, f.afterColon, tail);
  }

  /** A member's name in front of its colon and what follows. */
  lemma NameRead(s: string, p: nat, name: Units, before: string, after: string, tail: string) returns (start: nat)
    requires Terminated(s) && IsUnits(name) && AllSpace(before) && AllSpace(after) && tail != "" && tail[0] > ' '
    requires At(s, p, Quoted(name)) && At(s, p + |Quoted(name)|, before + (":" + (after + tail)))
    ensures p < |s| && start < |s| && At(s, start, tail)
    ensures if Paired(name) then ParseName(s, p) == Ok(CStr(Spelled(name)), start) else ParseName(s, p).Fail?
    ensures start + |tail| == p + |Quoted(name)| + |before + (":" + (after + tail))|
  {
    var colonAt, colon := p + |Quoted(name)|, 0;
    colon, start := ColonStep(s, colonAt, before, after, tail);
    AtIndex(s, start, tail, 0);
    SpaceSkipped(s, colonAt, before, colon);
    SpaceSkipped(s, colon + 1, after, start);
    StringRead(s, p, name, colonAt);
  }

  lemma ColonStep(s: string, p: nat, before: string, after: string, tail: string) returns (colon: nat, start: nat)
    requires At(s, p, before + (":" + (after + tail))) && tail != ""
    ensures Stands(s, p, before, colon) && s[colon] == ':' && Stands(s, colon + 1, after, start) && At(s, start, tail)
    ensures start + |tail| == p + |before + (":" + (after + tail))|
  {
    AtSplit3(s, p, before, ":", after + tail);
    colon, start := p + |before|, p + |before| + 1 + |after|;
    AtIndex(s, colon, ":", 0);
    AtSplit(s, colon + 1, after, tail);
  }

  /** At q, behind a member, the list ends at `close` or goes on with a comma. */
  ghost predicate FieldsFrom(s: string, q: nat, f: Fields, close: nat) {
    && q < |s| && close < |s| && s[close] == '}' && IsFields(f)
    && if f.NoFields? then q == close
       else s[q] == ',' && q + 1 < |s| && Stands(s, q + 1, FieldsText(f), close) && SkipWs(s, q + 1) == q + 1 + |f.before|
  }

  /** What follows a member's value. */
  lemma FieldStep(s: string, start: nat, f: Fields, close: nat) returns (next: nat, q: nat)
    requires IsFields(f) && f.Field? && close < |s| && s[close] == '}'
    requires At(s, start, TextOf(f.value) + (f.after + MoreFields(f.next)))
    requires start + |TextOf(f.value) + (f.after + MoreFields(f.next))| == close
    ensures Stands(s, start, TextOf(f.value), next) && !IsNumberChar(s[next])
    ensures SkipWs(s, next) == q && next <= q <= close && FieldsFrom(s, q, f.next, close)
  {
    next, q := Cut(s, start, TextOf(f.value), f.after, MoreFields(f.next), close);
    MoreStep(s, q, f.next, close);
    AfterValue(s, next, f.after, q);
  }

  /** Where the parts of a text that ends at `close` stand. */
  lemma Cut(s: string, p: nat, a: string, b: string, c: string, close: nat) returns (q: nat, r: nat)
    requires At(s, p, a + (b + c)) && p + |a + (b + c)| == close < |s|
    ensures At(s, p, a) && q == p + |a| && At(s, q, b) && r == q + |b| && At(s, r, c) && close == r + |c|
  {
    AtSplit3(s, p, a, b, c);
    q, r := p + |a|, p + |a| + |b|;
  }

  lemma MoreStep(s: string, q: nat, f: Fields, close: nat)
    requires IsFields(f) && At(s, q, MoreFields(f)) && q + |MoreFields(f)| == close < |s| && s[close] == '}'
    ensures FieldsFrom(s, q, f, close) && s[q] > ' ' && !IsNumberChar(s[q])
  {
    if f.Field? {
      CommaStep(s, q, f, close);
    }
  }

  lemma CommaStep(s: string, q: nat, f: Fields, close: nat)
    requires IsFields(f) && f.Field? && Stands(s, q, "," + FieldsText(f), close)
    ensures s[q] == ',' && q + 1 < |s| && Stands(s, q + 1, FieldsText(f), close) && SkipWs(s, q + 1) == q + 1 + |f.before|
  {
    AtSplit(s, q, ",", FieldsText(f));
    AtIndex(s, q, ",", 0);
    FieldStart(s, q + 1, "", q + 1, f, close);
  }

  lemma {:induction false} ReadFields(s: string, p: nat, at: nat, f: Fields, close: nat, depth: nat, limit: nat, room: int)
    returns (r: Parsed<Members>)
    requires room == limit - depth
    requires Terminated(s) && IsFields(f) && f.Field? && Stands(s, at, FieldsText(f), close) && s[close] == '}'
    requires depth <= limit && p + 1 < |s| && SkipWs(s, p + 1) == at + |f.before|
    ensures r == ParseMembers(s, p, depth, limit)
    ensures Verdict(FitsFields(f, room), s, r,
                    HeldMembers(FieldsMeaning(f)), close)
    decreases f, 1
  {
    var nameAt, start := NameStep(s, at, f, close);
    var next, q := FieldStep(s, start, f, close);
    var v := ReadText(s, start, f.value, next, depth, limit, room);
    var rest := ReadMoreFields(s, q, f.next, close, depth, limit, room);
    r := FieldTurn(s, p, nameAt, start, f, next, q, close, depth, limit, room, v, rest);
  }

  /** What the members behind a comma are read as. */
  ghost predicate MoreFieldsRead(s: string, q: nat, f: Fields, close: nat, depth: nat, limit: nat, room: int, rest: Parsed<Members>)
    requires Terminated(s)
  {
    q < |s| && if f.NoFields? then q == close && s[q] != ','
    else s[q] == ',' && q + 1 < |s| && rest == ParseMembers(s, q, depth, limit)
         && Verdict(FitsFields(f, room), s, rest,
                    HeldMembers(FieldsMeaning(f)), close)
  }

  lemma {:induction false} ReadMoreFields(s: string, q: nat, f: Fields, close: nat, depth: nat, limit: nat, room: int)
    returns (rest: Parsed<Members>)
    requires room == limit - depth
    requires Terminated(s) && FieldsFrom(s, q, f, close) && depth <= limit
    ensures MoreFieldsRead(s, q, f, close, depth, limit, room, rest)
    decreases f, 2
  {
    if f.NoFields? {
      rest := Fail(0);
    } else {
      var at := q + 1;
      rest := ReadFields(s, q, at, f, close, depth, limit, room);
    }
  }

  lemma FieldTurn(s: string, p: nat, nameAt: nat, start: nat, f: Fields, next: nat, q: nat, close: nat, depth: nat, limit: nat, room: int,
                  v: Parsed<Json>, rest: Parsed<Members>) returns (r: Parsed<Members>)
    requires room == limit - depth
    requires Terminated(s) && f.Field? && depth <= limit && p + 1 < |s| && SkipWs(s, p + 1) == nameAt && start < |s|
    requires if Paired(f.name) then ParseName(s, nameAt) == Ok(CStr(Spelled(f.name)), start) else ParseName(s, nameAt).Fail?
    requires next < |s| && SkipWs(s, next) == q && next <= q <= close < |s|
    requires v == ParseValue(s, start, depth, limit)
    requires Verdict(Fits(f.value, room), s, v, Held(Meaning(f.value)), next)
    requires MoreFieldsRead(s, q, f.next, close, depth, limit, room, rest)
    ensures r == ParseMembers(s, p, depth, limit)
    ensures Verdict(FitsFields(f, room), s, r,
                    HeldMembers(FieldsMeaning(f)), close)
  {
    var good := Fits(f.value, room);
    var goodRest := FitsFields(f.next, room);
    FieldHeld(f);
    r := MembersTurn(s, p, nameAt, start, next, q, close, depth, limit, Paired(f.name), good, goodRest,
                     CStr(Spelled(f.name)), Held(Meaning(f.value)), HeldMembers(FieldsMeaning(f.next)), v, rest);
  }

  lemma FieldHeld(f: Fields)
    requires f.Field?
    ensures HeldMembers(FieldsMeaning(f))
         == Member(CStr(Spelled(f.name)), Held(Meaning(f.value)), HeldMembers(FieldsMeaning(f.next)))
  {
  }

  lemma {:induction false} ReadObject(s: string, p: nat, space: string, f: Fields, end: nat, depth: nat, limit: nat, less: int,
                                     good: bool, held: Members) returns (r: Parsed<Json>)
    requires less == limit - depth - 1 >= -1 && Terminated(s) && AllSpace(space) && IsFields(f)
    requires good == (less >= 0 && FitsFields(f, less)) && held == HeldMembers(FieldsMeaning(f))
    requires Bracketed(s, p, '{', space, FieldsText(f), '}', end)
    ensures r == ParseObject(s, p, depth, limit)
    ensures if good then r == Ok(Object(held), end) else r.Fail?
    decreases f, 4
  {
    if less < 0 {
      r := ParseObject(s, p, depth, limit);
    } else if f.NoFields? {
      SpaceSkipped(s, p + 1, space, end - 1);
      r := EmptyObject(s, p, end - 1, depth, limit);
    } else {
      r := ReadFullObject(s, p, space, f, end, depth, limit, less, good, held);
    }
  }

  lemma {:induction false} ReadFullObject(s: string, p: nat, space: string, f: Fields, end: nat, depth: nat, limit: nat, less: int,
                                         good: bool, held: Members) returns (r: Parsed<Json>)
    requires less == limit - depth - 1 && less >= 0
    requires Terminated(s) && AllSpace(space) && IsFields(f) && !f.NoFields?
    requires good == FitsFields(f, less) && held == HeldMembers(FieldsMeaning(f))
    requires Bracketed(s, p, '{', space, FieldsText(f), '}', end)
    ensures r == ParseObject(s, p, depth, limit)
    ensures if good then r == Ok(Object(held), end) else r.Fail?
    decreases f, 3
  {
    var at, close := p + 1 + |space|, end - 1;
    var before, inner, found;
    r, before, inner, found := ObjectOpens(s, p, space, at, f, close, depth, limit);
    ReadFieldsAs(s, before, at, f, close, inner, limit, less, good, held, found, r);
  }

  /** An opening bracket, and where the list behind it starts. */
  lemma ObjectOpens(s: string, p: nat, space: string, at: nat, f: Fields, close: nat, depth: nat, limit: nat)
    returns (r: Parsed<Json>, before: nat, inner: nat, list: Parsed<Members>)
    requires Terminated(s) && p < |s| && s[p] == '{' && depth < limit && Stands(s, p + 1, space, at) && AllSpace(space)
    requires IsFields(f) && !f.NoFields? && Stands(s, at, FieldsText(f), close)
    ensures r == ParseObject(s, p, depth, limit) && inner == depth + 1
    ensures before + 1 < |s| && SkipWs(s, before + 1) == at + |f.before| && list == ParseMembers(s, before, inner, limit)
    ensures list.Fail? ==> r == Fail(list.at)
    ensures list.Ok? ==> list.next < |s| && r == if s[list.next] == '}' then Ok(Object(list.value), list.next + 1) else Fail(list.next)
  {
    FieldStart(s, p + 1, space, at, f, close);
    var empty;
    r, empty, before, inner, list := ObjectIs(s, p, depth, limit);
  }

  /** The list that is found is read as what is held. */
  lemma {:induction false} ReadFieldsAs(s: string, p: nat, at: nat, f: Fields, close: nat, depth: nat, limit: nat, room: int,
                                        good: bool, held: Members, found: Parsed<Members>, r: Parsed<Json>)
    requires room == limit - depth && depth <= limit
    requires Terminated(s) && IsFields(f) && !f.NoFields? && Stands(s, at, FieldsText(f), close) && s[close] == '}'
    requires p + 1 < |s| && SkipWs(s, p + 1) == at + |f.before| && found == ParseMembers(s, p, depth, limit)
    requires good == FitsFields(f, room) && held == HeldMembers(FieldsMeaning(f))
    requires found.Fail? ==> r == Fail(found.at)
    requires found.Ok? ==> found.next < |s| && r == if s[found.next] == '}' then Ok(Object(found.value), found.next + 1) else Fail(found.next)
    ensures if good then r == Ok(Object(held), close + 1) else r.Fail?
    decreases f, 2
  {
    var list := ReadFields(s, p, at, f, close, depth, limit, room);
    ObjectComesOut(s, r, found, good, held, close);
  }

  /** What the closing bracket makes of the list. */
  lemma ObjectComesOut(s: string, r: Parsed<Json>, list: Parsed<Members>, good: bool, held: Members, close: nat)
    requires close < |s| && s[close] == '}' && Verdict(good, s, list, held, close)
    requires list.Fail? ==> r == Fail(list.at)
    requires list.Ok? ==> list.next < |s| && r == if s[list.next] == '}' then Ok(Object(list.value), list.next + 1) else Fail(list.next)
    ensures if good then r == Ok(Object(held), close + 1) else r.Fail?
  {
  }

  lemma EmptyObject(s: string, p: nat, close: nat, depth: nat, limit: nat) returns (r: Parsed<Json>)
    requires Terminated(s) && p < |s| && s[p] == '{' && p + 1 < |s| && SkipWs(s, p + 1) == close && s[close] == '}'
    ensures r == ParseObject(s, p, depth, limit) && if depth < limit then r == Ok(Object(NoMembers), close + 1) else r.Fail?
  {
    r := ParseObject(s, p, depth, limit);
  }

  // ------------------------------------------------------------- texts

  /** Wherever a JSON text stands, at any depth. */
  lemma {:induction false} ReadText(s: string, p: nat, t: Syntax, end: nat, depth: nat, limit: nat, room: int)
    returns (r: Parsed<Json>)
    requires room == limit - depth
    requires Terminated(s) && IsText(t) && depth <= limit
    requires Stands(s, p, TextOf(t), end) && !IsNumberChar(s[end])
    ensures p < |s| && r == ParseValue(s, p, depth, limit)
    ensures Verdict(Fits(t, room), s, r, Held(Meaning(t)), end)
    ensures r.Ok? && !Fits(t, room) ==> t.DecimalText?
    decreases t, 6
  {
    var good, v := Fits(t, room), Held(Meaning(t));
    if t.ArrayText? {
      TextParts(t, room);
      r := ReadArrayText(s, p, t.space, t.elements, end, depth, limit, room);
      assert if good then r == Ok(v, end) else r.Fail?;
    } else if t.ObjectText? {
      TextParts(t, room);
      r := ReadObjectText(s, p, t.space, t.fields, end, depth, limit, room);
      assert if good then r == Ok(v, end) else r.Fail?;
    } else {
      r := ScalarRead(s, p, t, end, depth, limit, room);
    }
  }

  /** An array or an object, in terms of what it holds. */
  lemma TextParts(t: Syntax, room: int)
    requires IsText(t)
    ensures t.ArrayText? ==>
              && AllSpace(t.space) && IsElements(t.elements)
              && TextOf(t) == "[" + (t.space + (ElementsText(t.elements) + "]"))
              && Fits(t, room) == (room > 0 && FitsElements(t.elements, room - 1))
              && Held(Meaning(t)) == Array(HeldItems(ElementsMeaning(t.elements)))
    ensures t.ObjectText? ==>
              && AllSpace(t.space) && IsFields(t.fields)
              && TextOf(t) == "{" + (t.space + (FieldsText(t.fields) + "}"))
              && Fits(t, room) == (room > 0 && FitsFields(t.fields, room - 1))
              && Held(Meaning(t)) == Object(HeldMembers(FieldsMeaning(t.fields)))
  {
  }

  lemma {:induction false} ReadArrayText(s: string, p: nat, space: string, e: Elements, end: nat, depth: nat, limit: nat, room: int)
    returns (r: Parsed<Json>)
    requires room == limit - depth >= 0 && Terminated(s) && AllSpace(space) && IsElements(e)
    requires Stands(s, p, "[" + (space + (ElementsText(e) + "]")), end)
    ensures p < |s| && r == ParseValue(s, p, depth, limit)
    ensures if room > 0 && FitsElements(e, room - 1) then r == Ok(Array(HeldItems(ElementsMeaning(e))), end) else r.Fail?
    decreases e, 5
  {
    BracketsAt(s, p, '[', space, ElementsText(e), ']', end);
    ValueIsArray(s, p, depth, limit);
    var less := room - 1;
    var good, held := less >= 0 && FitsElements(e, less), HeldItems(ElementsMeaning(e));
    r := ReadArray(s, p, space, e, end, depth, limit, less, good, held);
  }

  lemma {:induction false} ReadObjectText(s: string, p: nat, space: string, f: Fields, end: nat, depth: nat, limit: nat, room: int)
    returns (r: Parsed<Json>)
    requires room == limit - depth >= 0 && Terminated(s) && AllSpace(space) && IsFields(f)
    requires Stands(s, p, "{" + (space + (FieldsText(f) + "}")), end)
    ensures p < |s| && r == ParseValue(s, p, depth, limit)
    ensures if room > 0 && FitsFields(f, room - 1) then r == Ok(Object(HeldMembers(FieldsMeaning(f))), end) else r.Fail?
    decreases f, 5
  {
    BracketsAt(s, p, '{', space, FieldsText(f), '}', end);
    ValueIsObject(s, p, depth, limit);
    var less := room - 1;
    var good, held := less >= 0 && FitsFields(f, less), HeldMembers(FieldsMeaning(f));
    r := ReadObject(s, p, space, f, end, depth, limit, less, good, held);
  }

  lemma ValueIsArray(s: string, p: nat, depth: nat, limit: nat)
    requires Terminated(s) && p < |s| && s[p] == '['
    ensures ParseValue(s, p, depth, limit) == ParseArray(s, p, depth, limit)
  {
    NotALiteral(s, p, '[');
  }

  lemma ValueIsObject(s: string, p: nat, depth: nat, limit: nat)
    requires Terminated(s) && p < |s| && s[p] == '{'
    ensures ParseValue(s, p, depth, limit) == ParseObject(s, p, depth, limit)
  {
    NotALiteral(s, p, '{');
  }

  lemma {:induction false} EndSkipped(s: string, p: nat, after: string)
    requires Terminated(s) && At(s, p, after) && p + |after| == |s| - 1 && AllSpace(after)
    ensures SkipBlank(s, p) == |s| && SkipWs(s, p) == |s| - 1 && !IsNumberChar(s[p])
    decreases |after|
  {
    if after != "" {
      assert after == [after[0]] + after[1..];
      AtSplit(s, p, [after[0]], after[1..]);
      AtIndex(s, p, after, 0);
      EndSkipped(s, p + 1, after[1..]);
    } else {
      assert SkipBlank(s, |s|) == |s|;
    }
  }

  /** A text with white space around it, and its NUL. */
  lemma Framed(before: string, t: Syntax, after: string) returns (s: string, start: nat, end: nat)
    requires AllSpace(before) && IsText(t) && AllSpace(after)
    ensures '\0' !in before + (TextOf(t) + after) && s == before + (TextOf(t) + after) + "\0" && Terminated(s)
    ensures Stands(s, start, TextOf(t), end) && end == |before| + |TextOf(t)| && SkipWs(s, 0) == start
    ensures SkipBlank(s, end) == |s| && SkipWs(s, end) == |s| - 1 && !IsNumberChar(s[end])
  {
    TextNulFree(before, t, after);
    TextStart(t);
    s, start, end := TextFramed(before, TextOf(t), after);
  }

  lemma TextFramed(before: string, text: string, after: string) returns (s: string, start: nat, end: nat)
    requires AllSpace(before) && AllSpace(after) && text != "" && text[0] > ' '
    ensures s == before + (text + after) + "\0" && Terminated(s)
    ensures Stands(s, start, text, end) && end == |before| + |text| && SkipWs(s, 0) == start
    ensures SkipBlank(s, end) == |s| && SkipWs(s, end) == |s| - 1 && !IsNumberChar(s[end])
  {
    s := before + (text + after) + "\0";
    start, end := |before|, |before| + |text|;
    assert s == before + (text + (after + "\0"));
    AtSplit3(s, 0, before, text, after + "\0");
    AtSplit(s, end, after, "\0");
    AtIndex(s, start, text, 0);
    SpaceSkipped(s, 0, before, start);
    EndSkipped(s, end, after);
  }

  /** The condition on which a JSON text is accepted. */
  predicate Acceptable(t: Syntax, limit: nat) {
    Nesting(Meaning(t)) <= limit && Sound(t)
  }

  /**
   The parser decides every JSON text: an acceptable one is read to its end, as its value with numbers rounded and
   strings cut at their first NUL. Any other is refused; only if the text is one number, longer than the conversion
   buffer, and trailing characters are allowed, a prefix of it may be read.
   */
  lemma TextDecides(before: string, t: Syntax, after: string, requireNullTerminated: bool, limit: nat)
    requires AllSpace(before) && IsText(t) && AllSpace(after)
    ensures '\0' !in before + (TextOf(t) + after)
    ensures var text := before + (TextOf(t) + after); var end := |before| + |TextOf(t)|;
            var r := Parse(text, requireNullTerminated, limit);
            if Acceptable(t, limit) then r == Ok(Held(Meaning(t)), if requireNullTerminated then |text| else end)
            else r.Fail? || (!requireNullTerminated && t.DecimalText? && r.next < end)
  {
    var s, start, end := Framed(before, t, after);
    var r := ReadText(s, start, t, end, 0, limit, limit);
    if r.Ok? && r.next < end {
      Visible(s, r.next);
    }
    FitsIff(t, limit);
    ParseIs(before + (TextOf(t) + after), s, start, requireNullTerminated, limit, r);
  }

  /** The parse of a text, from the value it starts with. */
  lemma ParseIs(text: string, s: string, start: nat, requireNullTerminated: bool, limit: nat, r: Parsed<Json>)
    requires '\0' !in text && s == text + "\0" && start < |s| && SkipWs(s, 0) == start && r == ParseValue(s, start, 0, limit)
    ensures r.Fail? ==> Parse(text, requireNullTerminated, limit).Fail?
    ensures r.Ok? && !requireNullTerminated ==> Parse(text, requireNullTerminated, limit) == r
    ensures r.Ok? && requireNullTerminated ==>
              && r.next < |s|
              && Parse(text, requireNullTerminated, limit)
              == var q := SkipWs(s, r.next); if s[q] == '\0' then Ok(r.value, q) else Fail(q)
  {
  }

  /** The value the grammar gives is what is read, exactly if the text is acceptable and a tree can hold the value. */
  lemma ReadAsMeantIff(before: string, t: Syntax, after: string, limit: nat)
    requires AllSpace(before) && IsText(t) && AllSpace(after)
    ensures '\0' !in before + (TextOf(t) + after)
    ensures var text := before + (TextOf(t) + after);
            Parse(text, true, limit) == Ok(Meaning(t), |text|) <==> Acceptable(t, limit) && Holdable(Meaning(t))
  {
    TextDecides(before, t, after, true, limit);
    HeldIff(Meaning(t));
  }
}
