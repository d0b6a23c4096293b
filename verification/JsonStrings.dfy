/**
 JSON string literals: the printer's escaping, the parser's two passes over an escaped literal (sizing, then
 writing), and the UTF-16 escapes with their UTF-8 encoding.

 A text is a Dafny string in which each char stands for one byte of the C string.
 */
module JsonStrings {
  import opened Common

  const BACKSPACE: char := 8 as char
  const FORM_FEED: char := 12 as char

  // ------------------------------------------------------------ escaping

  function HexDigit(n: nat): char
    requires n < 16
  {
    if n < 10 then '0' + n as char else 'a' + (n - 10) as char
  }

  /** sprintf("u%04x") for a control character. */
  function UnicodeEscape(c: char): string
    requires c < ' '
  {
    "\\u00" + [HexDigit(c as int / 16), HexDigit(c as int % 16)]
  }

  function EscapeChar(c: char): string {
    if c == '\"' then "\\\""
    else if c == '\\' then "\\\\"
    else if c == BACKSPACE then "\\b"
    else if c == FORM_FEED then "\\f"
    else if c == '\n' then "\\n"
    else if c == '\r' then "\\r"
    else if c == '\t' then "\\t"
    else if c < ' ' then UnicodeEscape(c)
    else [c]
  }

  function Escape(s: string): string {
    if s == "" then "" else EscapeChar(s[0]) + Escape(s[1..])
  }

  function Quote(s: string): string {
    "\"" + Escape(s) + "\""
  }

  // -------------------------------------------------------- sizing pass

  /** The closing quote, and how many backslashes were skipped on the way. */
  datatype Scanned = NoEnd | End(at: nat, skipped: nat)

  function Scan(s: string, p: nat): (r: Scanned)
    requires p <= |s|
    ensures r.End? ==> p <= r.at < |s| && s[r.at] == '\"'
    decreases |s| - p
  {
    if p < |s| && s[p] != '\"' then
      if s[p] == '\\' then
        if p + 1 >= |s| then NoEnd
        else
          match Scan(s, p + 2)
          case NoEnd => NoEnd
          case End(at, skipped) => End(at, skipped + 1)
      else Scan(s, p + 1)
    else if p >= |s| then NoEnd
    else End(p, 0)
  }

  // ------------------------------------------------------ UTF-16 escapes

  function HexValue(c: char): Option<nat> {
    if '0' <= c <= '9' then Some(c as int - '0' as int)
    else if 'A' <= c <= 'F' then Some(10 + c as int - 'A' as int)
    else if 'a' <= c <= 'f' then Some(10 + c as int - 'a' as int)
    else None
  }

  /** parse_hex4: zero if any of the four digits is bad. */
  function ParseHex4(s: string, p: nat): (h: nat)
    requires p + 4 <= |s|
    ensures h < 0x10000
  {
    var a, b, c, d := HexValue(s[p]), HexValue(s[p + 1]), HexValue(s[p + 2]), HexValue(s[p + 3]);
    if a.None? || b.None? || c.None? || d.None? then 0
    else ((a.value * 16 + b.value) * 16 + c.value) * 16 + d.value
  }

  function ByteChar(n: nat): char
    requires n < 256
  {
    n as char
  }

  /** The UTF-8 encoding of a code point: section 3 of RFC 3629, with shifts and masks written as / and %. */
  function Utf8(cp: nat): (r: string)
    requires cp <= 0x10FFFF
    ensures 1 <= |r| <= 4 && (cp < 0x10000 ==> |r| <= 3)
  {
    var c1 := cp / 64;
    var c2 := c1 / 64;
    var c3 := c2 / 64;
    if cp < 0x80 then [ByteChar(cp)]
    else if cp < 0x800 then [ByteChar(0xC0 + c1), Trail(cp)]
    else if cp < 0x10000 then [ByteChar(0xE0 + c2), Trail(c1), Trail(cp)]
    else [ByteChar(0xF0 + c3), Trail(c2), Trail(c1), Trail(cp)]
  }

  /** A continuation byte: (c | 0x80) & 0xBF. */
  function Trail(c: nat): char {
    ByteChar(0x80 + c % 64)
  }

  predicate IsHighSurrogate(w: nat) { 0xD800 <= w <= 0xDBFF }
  predicate IsLowSurrogate(w: nat) { 0xDC00 <= w <= 0xDFFF }

  /** utf16_literal_to_utf8: the bytes written and the length of the escape, or a failure. */
  datatype Literal = BadLiteral | Literal(codepoint: nat, length: nat)

  function Utf16Literal(s: string, p: nat, end: nat): (r: Literal)
    requires p <= end <= |s|
    ensures r.Literal? ==> r.codepoint <= 0x10FFFF && p + r.length <= end && (r.length == 6 || r.length == 12)
    ensures r.Literal? && r.length == 6 ==> r.codepoint < 0x10000
  {
    if end - p < 6 then BadLiteral
    else
      var first := ParseHex4(s, p + 2);
      if IsLowSurrogate(first) then BadLiteral
      else if IsHighSurrogate(first) then
        if end - (p + 6) < 6 then BadLiteral
        else if s[p + 6] != '\\' || s[p + 7] != 'u' then BadLiteral
        else
          var second := ParseHex4(s, p + 8);
          if !IsLowSurrogate(second) then BadLiteral
          else Literal(0x10000 + first % 0x400 * 0x400 + second % 0x400, 12)
      else Literal(first, 6)
  }

  // ------------------------------------------------------- writing pass

  /** The bytes written, and whether the pass got to the end or stopped at a bad escape. */
  datatype Unescaped = Unescaped(ok: bool, bytes: string, at: nat)

  function SimpleEscape(c: char): Option<char> {
    if c == 'b' then Some(BACKSPACE)
    else if c == 'f' then Some(FORM_FEED)
    else if c == 'n' then Some('\n')
    else if c == 'r' then Some('\r')
    else if c == 't' then Some('\t')
    else if c == '\"' || c == '\\' || c == '/' then Some(c)
    else None
  }

  function Prepend(bytes: string, u: Unescaped): Unescaped {
    u.(bytes := bytes + u.bytes)
  }

  function Unescape(s: string, p: nat, end: nat): Unescaped
    requires end < |s|
    decreases if p < end then end - p else 0
  {
    if p >= end then Unescaped(true, "", p)
    else if s[p] != '\\' then Prepend([s[p]], Unescape(s, p + 1, end))
    else if s[p + 1] == 'u' then
      var literal := Utf16Literal(s, p, end);
      if literal.BadLiteral? then Unescaped(false, "", p)
      else Prepend(Utf8(literal.codepoint), Unescape(s, p + literal.length, end))
    else
      var simple := SimpleEscape(s[p + 1]);
      if simple.None? then Unescaped(false, "", p)
      else Prepend([simple.value], Unescape(s, p + 2, end))
  }

  // ------------------------------------------- the two passes agree on size

  /** What the sizing pass counts from position q on. */
  function SizeFrom(s: string, q: nat): int
    requires q <= |s| && Scan(s, q).End?
  {
    Scan(s, q).at - q - Scan(s, q).skipped
  }

  /** From one boundary of the sizing pass to the first at or after `target`: at least one byte per two characters. */
  lemma {:induction false} WalkBoundaries(s: string, q: nat, target: nat) returns (q': nat)
    requires q <= target <= |s| && Scan(s, q).End? && target <= Scan(s, q).at
    ensures target <= q' <= target + 1 && q' <= |s|
    ensures Scan(s, q').End? && Scan(s, q').at == Scan(s, q).at
    ensures 2 * (SizeFrom(s, q) - SizeFrom(s, q')) >= q' - q
    decreases target - q
  {
    if q == target {
      q' := q;
    } else if s[q] == '\\' && q + 2 > target {
      q' := q + 2;
    } else {
      q' := WalkBoundaries(s, if s[q] == '\\' then q + 2 else q + 1, target);
    }
  }

  lemma {:induction false} SizeNonNegative(s: string, q: nat)
    requires q <= |s| && Scan(s, q).End?
    ensures SizeFrom(s, q) >= 0
    decreases |s| - q
  {
    if s[q] == '\\' {
      SizeNonNegative(s, q + 2);
    } else if s[q] != '\"' {
      SizeNonNegative(s, q + 1);
    }
  }

  /**
   The writing pass may be out of step with the sizing pass by one character (q is a boundary of the sizing pass, p
   the writer's position), because a \u escape is four digits longer than the sizing pass thinks and bad digits may
   hide backslashes. It still never writes more than the sizing pass counted.
   */
  lemma {:induction false} WritingFits(s: string, p: nat, q: nat)
    requires q <= |s| && Scan(s, q).End?
    requires q == p || q == p + 1
    ensures |Unescape(s, p, Scan(s, q).at).bytes| <= SizeFrom(s, q) + (q - p)
    decreases if p < Scan(s, q).at then Scan(s, q).at - p else 0
  {
    var end := Scan(s, q).at;
    SizeNonNegative(s, q);
    if p < end {
      if s[p] != '\\' {
        WritingFits(s, p + 1, p + 1);
      } else if s[p + 1] == 'u' {
        var literal := Utf16Literal(s, p, end);
        if literal.Literal? {
          var q' := WalkBoundaries(s, q, p + literal.length);
          WritingFits(s, p + literal.length, q');
        }
      } else if SimpleEscape(s[p + 1]).Some? {
        SimpleEscapeFits(s, p, q);
      }
    }
  }

  lemma SimpleEscapeFits(s: string, p: nat, q: nat)
    requires q <= |s| && Scan(s, q).End? && p < Scan(s, q).at
    requires q == p || q == p + 1
    requires s[p] == '\\' && s[p + 1] != 'u' && SimpleEscape(s[p + 1]).Some?
    ensures |Unescape(s, p, Scan(s, q).at).bytes| <= SizeFrom(s, q) + (q - p)
    decreases Scan(s, q).at - p, 0
  {
    if q == p || (s[p + 1] != '\"' && s[p + 1] != '\\') {
      WritingFits(s, p + 2, p + 2);
    } else if s[p + 1] == '\\' {
      WritingFits(s, p + 2, p + 3);
    }
  }

  /** Unescape sizing: for every input the bytes written never exceed what the sizing pass counted. */
  lemma UnescapeSizing(s: string, start: nat)
    requires start <= |s| && Scan(s, start).End?
    ensures |Unescape(s, start, Scan(s, start).at).bytes| <= Scan(s, start).at - start - Scan(s, start).skipped
  {
    WritingFits(s, start, start);
  }

  // -------------------------------------------------------- texts in place

  /** The text t stands at position p: can_read and strncmp. */
  predicate At(s: string, p: nat, t: string) {
    p + |t| <= |s| && forall i :: 0 <= i < |t| ==> s[p + i] == t[i]
  }

  lemma AtSplit(s: string, p: nat, a: string, b: string)
    requires At(s, p, a + b)
    ensures At(s, p, a) && At(s, p + |a|, b)
  {
    forall i | 0 <= i < |a|
      ensures s[p + i] == a[i]
    {
      assert (a + b)[i] == a[i];
    }
    forall i | 0 <= i < |b|
      ensures s[p + |a| + i] == b[i]
    {
      assert (a + b)[|a| + i] == b[i];
    }
  }

  lemma AtIndex(s: string, p: nat, t: string, i: nat)
    requires At(s, p, t) && i < |t|
    ensures s[p + i] == t[i]
  {
  }

  lemma {:induction false} ScanPlain(s: string, p: nat, n: nat)
    requires p + n <= |s| && forall i :: p <= i < p + n ==> s[i] != '\\' && s[i] != '\"'
    ensures Scan(s, p).End? <==> Scan(s, p + n).End?
    ensures Scan(s, p).End? ==> Scan(s, p).at == Scan(s, p + n).at
    decreases n
  {
    if n > 0 {
      ScanPlain(s, p + 1, n - 1);
    }
  }

  // ------------------------------------------------------ what escapes mean

  /** Section 7 of RFC 8259: the character that a two-character escape stands for. */
  function ShortMeaning(c: char): Option<char> {
    match c
    case '\"' => Some(0x22 as char)
    case '\\' => Some(0x5C as char)
    case '/' => Some(0x2F as char)
    case 'b' => Some(0x08 as char)
    case 'f' => Some(0x0C as char)
    case 'n' => Some(0x0A as char)
    case 'r' => Some(0x0D as char)
    case 't' => Some(0x09 as char)
    case _ => None
  }

  lemma ShortAgrees(c: char)
    ensures SimpleEscape(c) == ShortMeaning(c)
  {
  }

  /** The sixteen hexadecimal digits, in lower case and in upper case. */
  function LowerDigit(v: nat): char
    requires v < 16
  {
    if v < 10 then '0' + v as char else 'a' + (v - 10) as char
  }

  function UpperDigit(v: nat): char
    requires v < 16
  {
    if v < 10 then '0' + v as char else 'A' + (v - 10) as char
  }

  lemma DigitsInOrder(v: nat)
    requires v < 16
    ensures LowerDigit(v) == "0123456789abcdef"[v] && UpperDigit(v) == "0123456789ABCDEF"[v]
  {
  }

  /** The hexadecimal digit c, of either case, stands for v: its place among the sixteen. */
  predicate DigitMeans(c: char, v: nat) {
    v < 16 && (c == LowerDigit(v) || c == UpperDigit(v))
  }

  /** The four digits, of whatever case, are those of the code unit w. */
  predicate WordMeans(digits: string, w: nat) {
    && |digits| == 4
    && DigitMeans(digits[0], w / 16 / 16 / 16) && DigitMeans(digits[1], w / 16 / 16 % 16)
    && DigitMeans(digits[2], w / 16 % 16) && DigitMeans(digits[3], w % 16)
  }

  /** A digit has the value of its place, and what is not a digit has none. */
  lemma HexValueMeans(c: char, v: nat)
    ensures HexValue(c) == Some(v) <==> DigitMeans(c, v)
  {
  }

  /** The printer's digits. */
  lemma HexDigitMeans(n: nat)
    requires n < 16
    ensures DigitMeans(HexDigit(n), n)
  {
  }

  /** Four digits are read as the code unit they are the digits of, upper case, lower case or mixed. */
  lemma WordReads(s: string, p: nat, digits: string, w: nat)
    requires WordMeans(digits, w) && At(s, p, digits)
    ensures ParseHex4(s, p) == w
  {
    AtIndex(s, p, digits, 0);
    AtIndex(s, p, digits, 1);
    AtIndex(s, p, digits, 2);
    AtIndex(s, p, digits, 3);
    HexValueMeans(digits[0], w / 16 / 16 / 16);
    HexValueMeans(digits[1], w / 16 / 16 % 16);
    HexValueMeans(digits[2], w / 16 % 16);
    HexValueMeans(digits[3], w % 16);
    var w1 := w / 16;
    var w2 := w1 / 16;
    assert w == w1 * 16 + w % 16;
    assert w1 == w2 * 16 + w1 % 16;
    assert w2 == w2 / 16 * 16 + w2 % 16;
  }

  /** One character that is no hexadecimal digit makes the code unit zero: the escape is not refused. */
  lemma BadDigitsReadAsZero(s: string, p: nat, i: nat)
    requires p + 4 <= |s| && i < 4 && forall v: nat :: v < 16 ==> s[p + i] != LowerDigit(v) && s[p + i] != UpperDigit(v)
    ensures ParseHex4(s, p) == 0
  {
    if HexValue(s[p + i]).Some? {
      HexValueMeans(s[p + i], HexValue(s[p + i]).value);
    }
  }

  // ------------------------------------------------- UTF-8, strictly

  predicate IsTrail(c: char) { 0x80 <= c as int <= 0xBF }

  /** Section 4 of RFC 3629: the byte sequences of one character. No other bytes are UTF-8. */
  predicate IsUtf8(b: string) {
    || (|b| == 1 && b[0] as int <= 0x7F)
    || (|b| == 2 && 0xC2 <= b[0] as int <= 0xDF && IsTrail(b[1]))
    || (|b| == 3 && IsTrail(b[1]) && IsTrail(b[2])
        && match b[0] as int
           case 0xE0 => b[1] as int >= 0xA0
           case 0xED => b[1] as int <= 0x9F
           case lead => 0xE1 <= lead <= 0xEF)
    || (|b| == 4 && IsTrail(b[1]) && IsTrail(b[2]) && IsTrail(b[3])
        && match b[0] as int
           case 0xF0 => b[1] as int >= 0x90
           case 0xF4 => b[1] as int <= 0x8F
           case lead => 0xF1 <= lead <= 0xF3)
  }

  /** Decoding of section 3 of RFC 3629: the marks taken off, the rest joined. */
  function Utf8Decode(b: string): int
    requires IsUtf8(b)
  {
    match |b|
    case 1 => b[0] as int
    case 2 => (b[0] as int - 0xC0) * 64 + (b[1] as int - 0x80)
    case 3 => ((b[0] as int - 0xE0) * 64 + (b[1] as int - 0x80)) * 64 + (b[2] as int - 0x80)
    case _ => (((b[0] as int - 0xF0) * 64 + (b[1] as int - 0x80)) * 64 + (b[2] as int - 0x80)) * 64 + (b[3] as int - 0x80)
  }

  /** A Unicode scalar value: no surrogate. */
  predicate IsScalar(cp: int) { 0 <= cp <= 0x10FFFF && !(0xD800 <= cp <= 0xDFFF) }

  /** The encoding of a code point is UTF-8, in its shortest form, and decodes to it. */
  lemma Utf8RoundTrip(cp: nat)
    requires IsScalar(cp)
    ensures IsUtf8(Utf8(cp)) && Utf8Decode(Utf8(cp)) == cp
  {
    var c1 := cp / 64;
    var c2 := c1 / 64;
    var c3 := c2 / 64;
    assert cp == c1 * 64 + cp % 64 && c1 == c2 * 64 + c1 % 64 && c2 == c3 * 64 + c2 % 64;
  }

  /** And every UTF-8 sequence is the encoding of the code point it decodes to: there is no other. */
  lemma Utf8IsUnique(b: string)
    requires IsUtf8(b)
    ensures IsScalar(Utf8Decode(b)) && Utf8(Utf8Decode(b)) == b
  {
    if |b| == 2 {
      TwoBytes(b[0] as int - 0xC0, b[1] as int - 0x80);
    } else if |b| == 3 {
      UniqueThree(b);
    } else if |b| == 4 {
      UniqueFour(b);
    }
  }

  lemma UniqueThree(b: string)
    requires IsUtf8(b) && |b| == 3
    ensures IsScalar(Utf8Decode(b)) && Utf8(Utf8Decode(b)) == b
  {
    ThreeBytes(b[0] as int - 0xE0, b[1] as int - 0x80, b[2] as int - 0x80);
  }

  lemma UniqueFour(b: string)
    requires IsUtf8(b) && |b| == 4
    ensures IsScalar(Utf8Decode(b)) && Utf8(Utf8Decode(b)) == b
  {
    FourBytes(b[0] as int - 0xF0, b[1] as int - 0x80, b[2] as int - 0x80, b[3] as int - 0x80);
  }

  lemma TwoBytes(a: nat, b: nat)
    requires 2 <= a < 32 && b < 64
    ensures Utf8(a * 64 + b) == [ByteChar(0xC0 + a), ByteChar(0x80 + b)]
  {
    Digits64(a, b);
  }

  lemma ThreeBytes(a: nat, b: nat, c: nat)
    requires a < 16 && b < 64 && c < 64 && (a == 0 ==> b >= 32) && (a == 13 ==> b < 32)
    ensures IsScalar((a * 64 + b) * 64 + c)
    ensures Utf8((a * 64 + b) * 64 + c) == [ByteChar(0xE0 + a), ByteChar(0x80 + b), ByteChar(0x80 + c)]
  {
    Digits64(a * 64 + b, c);
    Digits64(a, b);
  }

  lemma FourBytes(a: nat, b: nat, c: nat, d: nat)
    requires a < 5 && b < 64 && c < 64 && d < 64 && (a == 0 ==> b >= 16) && (a == 4 ==> b < 16)
    ensures IsScalar(((a * 64 + b) * 64 + c) * 64 + d)
    ensures Utf8(((a * 64 + b) * 64 + c) * 64 + d)
         == [ByteChar(0xF0 + a), ByteChar(0x80 + b), ByteChar(0x80 + c), ByteChar(0x80 + d)]
  {
    Digits64((a * 64 + b) * 64 + c, d);
    Digits64(a * 64 + b, c);
    Digits64(a, b);
  }

  lemma Digits64(high: nat, low: nat)
    requires low < 64
    ensures (high * 64 + low) / 64 == high && (high * 64 + low) % 64 == low
  {
  }

  // ------------------------------------------------- UTF-16 escapes decode

  /** Section 2.2 of RFC 2781 undoes section 2.1. */
  lemma SurrogatesJoin(u: nat)
    requires u < 0x100000
    ensures IsHighSurrogate(0xD800 + u / 0x400) && IsLowSurrogate(0xDC00 + u % 0x400)
    ensures (0xD800 + u / 0x400) % 0x400 * 0x400 + (0xDC00 + u % 0x400) % 0x400 == u
  {
    var top, low := u / 0x400, u % 0x400;
    assert (54 * 0x400 + top) % 0x400 == top;
    assert (55 * 0x400 + low) % 0x400 == low;
  }

  lemma BasicIsLiteral(s: string, p: nat, cp: nat, digits: string, end: nat)
    requires cp < 0x10000 && IsScalar(cp) && WordMeans(digits, cp) && At(s, p + 2, digits) && p + 6 <= end <= |s|
    ensures Utf16Literal(s, p, end) == Literal(cp, 6)
  {
    WordReads(s, p + 2, digits, cp);
  }

  lemma PairReads(s: string, p: nat, high: nat, low: nat, end: nat)
    requires p + 12 <= end <= |s| && s[p + 6] == '\\' && s[p + 7] == 'u'
    requires ParseHex4(s, p + 2) == high && ParseHex4(s, p + 8) == low && IsHighSurrogate(high) && IsLowSurrogate(low)
    ensures Utf16Literal(s, p, end) == Literal(0x10000 + high % 0x400 * 0x400 + low % 0x400, 12)
  {
  }

  lemma PairIsLiteral(s: string, p: nat, u: nat, high: nat, low: nat, digits: string, more: string, end: nat)
    requires u < 0x100000 && high == 0xD800 + u / 0x400 && low == 0xDC00 + u % 0x400
    requires WordMeans(digits, high) && WordMeans(more, low)
    requires At(s, p + 2, digits) && At(s, p + 8, more) && p + 12 <= end <= |s| && s[p + 6] == '\\' && s[p + 7] == 'u'
    ensures Utf16Literal(s, p, end) == Literal(0x10000 + u, 12)
  {
    WordReads(s, p + 2, digits, high);
    WordReads(s, p + 8, more, low);
    SurrogatesJoin(u);
    PairReads(s, p, high, low, end);
  }

  /**
   Every spelling of a code point's escape, its digits in upper case, lower case or mixed, is written as its UTF-8
   encoding, which decodes to that code point.
   */
  lemma EscapeDecodes(s: string, p: nat, cp: nat, digits: string, end: nat)
    requires cp < 0x10000 && IsScalar(cp) && WordMeans(digits, cp)
    requires p + 6 <= end < |s| && s[p] == '\\' && s[p + 1] == 'u' && At(s, p + 2, digits)
    ensures Unescape(s, p, end) == Prepend(Utf8(cp), Unescape(s, p + 6, end))
    ensures IsUtf8(Utf8(cp)) && Utf8Decode(Utf8(cp)) == cp
  {
    Utf8RoundTrip(cp);
    BasicIsLiteral(s, p, cp, digits, end);
    LiteralWrites(s, p, end, cp, 6);
  }

  /** So is every spelling of the surrogate pair of a supplementary one, by section 2.1 of RFC 2781. */
  lemma PairEscapeDecodes(s: string, p: nat, u: nat, high: nat, low: nat, digits: string, more: string, end: nat)
    requires u < 0x100000 && high == 0xD800 + u / 0x400 && low == 0xDC00 + u % 0x400
    requires WordMeans(digits, high) && WordMeans(more, low)
    requires p + 12 <= end < |s| && s[p] == '\\' && s[p + 1] == 'u' && At(s, p + 2, digits)
    requires s[p + 6] == '\\' && s[p + 7] == 'u' && At(s, p + 8, more)
    ensures Unescape(s, p, end) == Prepend(Utf8(0x10000 + u), Unescape(s, p + 12, end))
    ensures IsUtf8(Utf8(0x10000 + u)) && Utf8Decode(Utf8(0x10000 + u)) == 0x10000 + u
  {
    Utf8RoundTrip(0x10000 + u);
    PairIsLiteral(s, p, u, high, low, digits, more, end);
    LiteralWrites(s, p, end, 0x10000 + u, 12);
  }

  lemma LiteralWrites(s: string, p: nat, end: nat, cp: nat, length: nat)
    requires p < end < |s| && s[p] == '\\' && s[p + 1] == 'u' && cp <= 0x10FFFF
    requires Utf16Literal(s, p, end) == Literal(cp, length)
    ensures Unescape(s, p, end) == Prepend(Utf8(cp), Unescape(s, p + length, end))
  {
  }
}
