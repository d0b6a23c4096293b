/**
 The grammar of RFC 8259 as concrete syntax trees: every JSON text is the text of such a tree, with all its white
 space, escapes and number forms, and the tree says which value the text denotes.
 */
module JsonGrammar {
  import opened Common
  import opened Doubles
  import opened Json
  import opened JsonStrings
  import opened JsonNumbers

  /** Section 2: white space. */
  predicate IsSpace(c: char) { c == ' ' || c == '\t' || c == '\r' || c == '\n' }

  ghost predicate AllSpace(t: string) { forall i :: 0 <= i < |t| ==> IsSpace(t[i]) }

  // ------------------------------------------------------------- strings

  /** Section 7: the characters between the quotes. */
  datatype Units =
    | NoUnits
    | Verbatim(c: char, next: Units)
    | Short(c: char, next: Units)
    | Hex(digits: string, next: Units)

  ghost predicate IsUnits(u: Units) {
    match u
    case NoUnits => true
    case Verbatim(c, next) => c >= ' ' && c != '\"' && c != '\\' && IsUnits(next)
    case Short(c, next) => ShortMeaning(c).Some? && IsUnits(next)
    case Hex(digits, next) => IsHex(digits) && IsUnits(next)
  }

  /** HEXDIG of RFC 5234, of either case. */
  predicate IsHexDigit(c: char) { '0' <= c <= '9' || 'A' <= c <= 'F' || 'a' <= c <= 'f' }

  ghost predicate IsHex(digits: string) {
    |digits| == 4 && IsHexDigit(digits[0]) && IsHexDigit(digits[1]) && IsHexDigit(digits[2]) && IsHexDigit(digits[3])
  }

  function UnitsText(u: Units): string {
    match u
    case NoUnits => ""
    case Verbatim(c, next) => [c] + UnitsText(next)
    case Short(c, next) => ['\\', c] + UnitsText(next)
    case Hex(digits, next) => "\\u" + (digits + UnitsText(next))
  }

  /** The value of a hexadecimal digit, from its code in ASCII. */
  function DigitPlace(c: char): nat {
    var code := c as int;
    if 0x30 <= code <= 0x39 then code - 0x30
    else if 0x41 <= code <= 0x46 then code - 0x37
    else if 0x61 <= code <= 0x66 then code - 0x57
    else 0
  }

  /** The code unit of an escape, its digits counting by their places. */
  function Word(digits: string): (w: nat)
    ensures w < 0x10000
  {
    if |digits| == 4 then
      0x1000 * DigitPlace(digits[0]) + 0x100 * DigitPlace(digits[1]) + 0x10 * DigitPlace(digits[2]) + DigitPlace(digits[3])
    else 0
  }

  /** A digit's value is its place among the sixteen. */
  lemma PlaceMeans(c: char)
    requires IsHexDigit(c)
    ensures DigitMeans(c, DigitPlace(c))
  {
  }

  lemma MeansPlace(c: char, v: nat)
    requires DigitMeans(c, v)
    ensures IsHexDigit(c) && DigitPlace(c) == v
  {
    HexValueMeans(c, v);
  }

  lemma DigitsSplit(a: nat, b: nat, c: nat, d: nat, w: nat)
    requires a < 16 && b < 16 && c < 16 && d < 16 && w == 0x1000 * a + 0x100 * b + 0x10 * c + d
    ensures w / 16 / 16 / 16 == a && w / 16 / 16 % 16 == b && w / 16 % 16 == c && w % 16 == d
  {
    var w1 := 0x100 * a + 0x10 * b + c;
    var w2 := 0x10 * a + b;
    assert w / 16 == w1 && w % 16 == d;
    assert w1 / 16 == w2 && w1 % 16 == c;
    assert w2 / 16 == a && w2 % 16 == b;
  }

  /** The grammar's reading of four digits is that of section 7, and only hexadecimal digits have it. */
  lemma WordIsMeant(digits: string)
    requires IsHex(digits)
    ensures WordMeans(digits, Word(digits))
  {
    PlaceMeans(digits[0]);
    PlaceMeans(digits[1]);
    PlaceMeans(digits[2]);
    PlaceMeans(digits[3]);
    DigitsSplit(DigitPlace(digits[0]), DigitPlace(digits[1]), DigitPlace(digits[2]), DigitPlace(digits[3]), Word(digits));
  }

  lemma MeantIsWord(digits: string, w: nat)
    requires WordMeans(digits, w)
    ensures IsHex(digits) && Word(digits) == w
  {
    MeansPlace(digits[0], w / 16 / 16 / 16);
    MeansPlace(digits[1], w / 16 / 16 % 16);
    MeansPlace(digits[2], w / 16 % 16);
    MeansPlace(digits[3], w % 16);
    var w1 := w / 16;
    var w2 := w1 / 16;
    assert w == w1 * 16 + w % 16 && w1 == w2 * 16 + w1 % 16 && w2 == w2 / 16 * 16 + w2 % 16;
  }

  predicate StartsLow(u: Units) {
    u.Hex? && IsLowSurrogate(Word(u.digits))
  }

  /** Every surrogate belongs to a pair: section 8.2 leaves the others without a meaning. */
  predicate Paired(u: Units) {
    match u
    case NoUnits => true
    case Hex(digits, next) =>
      if IsHighSurrogate(Word(digits)) then StartsLow(next) && Paired(next.next)
      else !IsLowSurrogate(Word(digits)) && Paired(next)
    case _ => Paired(u.next)
  }

  /** A surrogate pair's code point: section 2.2 of RFC 2781. */
  function CodePoint(high: nat, low: nat): (cp: nat)
    requires IsHighSurrogate(high) && IsLowSurrogate(low)
    ensures 0x10000 <= cp <= 0x10FFFF
  {
    0x10000 + (high - 0xD800) * 0x400 + (low - 0xDC00)
  }

  /** The string denoted, in UTF-8; a pair is one code point. */
  function Spelled(u: Units): string {
    match u
    case NoUnits => ""
    case Verbatim(c, next) => [c] + Spelled(next)
    case Short(c, next) => (if ShortMeaning(c).Some? then [ShortMeaning(c).value] else "") + Spelled(next)
    case Hex(digits, next) =>
      if IsHighSurrogate(Word(digits)) && StartsLow(next)
      then Utf8(CodePoint(Word(digits), Word(next.digits))) + Spelled(next.next)
      else Utf8(Word(digits)) + Spelled(next)
  }

  // -------------------------------------------------------------- values

  /** Sections 3 to 5. `space` is the white space behind the opening bracket. */
  datatype Syntax =
    | NullText
    | FalseText
    | TrueText
    | DecimalText(n: Numeral)
    | StringText(u: Units)
    | ArrayText(space: string, elements: Elements)
    | ObjectText(space: string, fields: Fields)

  datatype Elements = NoElements | Element(before: string, value: Syntax, after: string, next: Elements)

  datatype Fields =
    | NoFields
    | Field(before: string, name: Units, beforeColon: string, afterColon: string, value: Syntax, after: string, next: Fields)

  ghost predicate IsText(t: Syntax) {
    match t
    case DecimalText(n) => IsNumeral(n)
    case StringText(u) => IsUnits(u)
    case ArrayText(space, elements) => AllSpace(space) && IsElements(elements)
    case ObjectText(space, fields) => AllSpace(space) && IsFields(fields)
    case _ => true
  }

  ghost predicate IsElements(e: Elements) {
    match e
    case NoElements => true
    case Element(before, value, after, next) => AllSpace(before) && IsText(value) && AllSpace(after) && IsElements(next)
  }

  ghost predicate IsFields(f: Fields) {
    match f
    case NoFields => true
    case Field(before, name, beforeColon, afterColon, value, after, next) =>
      && AllSpace(before) && IsUnits(name) && AllSpace(beforeColon) && AllSpace(afterColon)
      && IsText(value) && AllSpace(after) && IsFields(next)
  }

  function TextOf(t: Syntax): string
    decreases t, 0
  {
    match t
    case NullText => "null"
    case FalseText => "false"
    case TrueText => "true"
    case DecimalText(n) => NumeralText(n)
    case StringText(u) => Quoted(u)
    case ArrayText(space, elements) => "[" + (space + (ElementsText(elements) + "]"))
    case ObjectText(space, fields) => "{" + (space + (FieldsText(fields) + "}"))
  }

  function Quoted(u: Units): string {
    "\"" + (UnitsText(u) + "\"")
  }

  function ElementsText(e: Elements): string
    decreases e, 0
  {
    match e
    case NoElements => ""
    case Element(before, value, after, next) => before + (TextOf(value) + (after + MoreElements(next)))
  }

  function MoreElements(e: Elements): string
    decreases e, 1
  {
    if e.NoElements? then "" else "," + ElementsText(e)
  }

  function FieldsText(f: Fields): string
    decreases f, 0
  {
    match f
    case NoFields => ""
    case Field(before, name, beforeColon, afterColon, value, after, next) =>
      before + (Quoted(name) + (beforeColon + (":" + (afterColon + (TextOf(value) + (after + MoreFields(next)))))))
  }

  function MoreFields(f: Fields): string
    decreases f, 1
  {
    if f.NoFields? then "" else "," + FieldsText(f)
  }

  /** The value denoted. */
  function Meaning(t: Syntax): Json {
    match t
    case NullText => Null
    case FalseText => False
    case TrueText => True
    case DecimalText(n) => Number(Finite(NumeralValue(n)))
    case StringText(u) => Str(Spelled(u))
    case ArrayText(_, elements) => Array(ElementsMeaning(elements))
    case ObjectText(_, fields) => Object(FieldsMeaning(fields))
  }

  function ElementsMeaning(e: Elements): Items {
    match e
    case NoElements => NoItems
    case Element(_, value, _, next) => Item(Meaning(value), ElementsMeaning(next))
  }

  function FieldsMeaning(f: Fields): Members {
    match f
    case NoFields => NoMembers
    case Field(_, name, _, _, value, _, next) => Member(Spelled(name), Meaning(value), FieldsMeaning(next))
  }

  // --------------------------------------------------------- texts are C strings

  lemma {:induction false} UnitsNulFree(u: Units)
    requires IsUnits(u)
    ensures '\0' !in UnitsText(u)
    decreases u
  {
    match u
    case NoUnits =>
    case Verbatim(c, next) => UnitsNulFree(next);
    case Short(c, next) => UnitsNulFree(next);
    case Hex(digits, next) =>
      UnitsNulFree(next);
  }

  lemma NumeralNulFree(n: Numeral)
    requires IsNumeral(n)
    ensures '\0' !in NumeralText(n)
  {
  }

  lemma {:induction false} SyntaxNulFree(t: Syntax)
    requires IsText(t)
    ensures '\0' !in TextOf(t)
    decreases t
  {
    match t
    case DecimalText(n) => NumeralNulFree(n);
    case StringText(u) => UnitsNulFree(u);
    case ArrayText(space, elements) =>
      ElementsNulFree(elements);
      BracketsNulFree("[", space, ElementsText(elements), "]");
    case ObjectText(space, fields) =>
      FieldsNulFree(fields);
      BracketsNulFree("{", space, FieldsText(fields), "}");
    case _ =>
  }

  lemma {:induction false} ElementsNulFree(e: Elements)
    requires IsElements(e)
    ensures '\0' !in ElementsText(e)
    decreases e
  {
    if e.Element? {
      SyntaxNulFree(e.value);
      ElementsNulFree(e.next);
    }
  }

  lemma {:induction false} FieldsNulFree(f: Fields)
    requires IsFields(f)
    ensures '\0' !in FieldsText(f)
    decreases f
  {
    if f.Field? {
      UnitsNulFree(f.name);
      SyntaxNulFree(f.value);
      FieldsNulFree(f.next);
      PiecesNulFree(f.before, Quoted(f.name), f.beforeColon, f.afterColon, TextOf(f.value), f.after, MoreFields(f.next));
    }
  }

  lemma PiecesNulFree(a: string, b: string, c: string, d: string, e: string, f: string, g: string)
    requires '\0' !in a && '\0' !in b && '\0' !in c && '\0' !in d && '\0' !in e && '\0' !in f && '\0' !in g
    ensures '\0' !in a + (b + (c + (":" + (d + (e + (f + g))))))
  {
  }

  lemma BracketsNulFree(open: string, space: string, body: string, close: string)
    requires '\0' !in open && '\0' !in space && '\0' !in body && '\0' !in close
    ensures '\0' !in open + (space + (body + close))
  {
  }

  lemma TextNulFree(before: string, t: Syntax, after: string)
    requires AllSpace(before) && IsText(t) && AllSpace(after)
    ensures '\0' !in before + (TextOf(t) + after)
  {
    SyntaxNulFree(t);
  }

  // ------------------------------------------------- what a parser can hold

  /** No unpaired surrogate, and no number longer than the buffer it is converted in. */
  predicate Sound(t: Syntax) {
    match t
    case DecimalText(n) => |NumeralText(n)| <= MAX_NUMBER_LENGTH
    case StringText(u) => Paired(u)
    case ArrayText(_, elements) => SoundElements(elements)
    case ObjectText(_, fields) => SoundFields(fields)
    case _ => true
  }

  predicate SoundElements(e: Elements) {
    match e
    case NoElements => true
    case Element(_, value, _, next) => Sound(value) && SoundElements(next)
  }

  predicate SoundFields(f: Fields) {
    match f
    case NoFields => true
    case Field(_, name, _, _, value, _, next) => Paired(name) && Sound(value) && SoundFields(next)
  }

  /** Sound, and nested no deeper than there is room. */
  predicate Fits(t: Syntax, room: int) {
    match t
    case DecimalText(n) => |NumeralText(n)| <= MAX_NUMBER_LENGTH
    case StringText(u) => Paired(u)
    case ArrayText(_, elements) => room > 0 && FitsElements(elements, room - 1)
    case ObjectText(_, fields) => room > 0 && FitsFields(fields, room - 1)
    case _ => true
  }

  predicate FitsElements(e: Elements, room: int) {
    match e
    case NoElements => true
    case Element(_, value, _, next) => Fits(value, room) && FitsElements(next, room)
  }

  predicate FitsFields(f: Fields, room: int) {
    match f
    case NoFields => true
    case Field(_, name, _, _, value, _, next) => Paired(name) && Fits(value, room) && FitsFields(next, room)
  }

  lemma {:induction false} FitsIff(t: Syntax, room: nat)
    ensures Fits(t, room) <==> Nesting(Meaning(t)) <= room && Sound(t)
    decreases t
  {
    match t
    case ArrayText(_, elements) =>
      assert Nesting(Meaning(t)) == 1 + ItemsNesting(ElementsMeaning(elements));
      if room > 0 {
        FitsElementsIff(elements, room - 1);
      }
    case ObjectText(_, fields) =>
      assert Nesting(Meaning(t)) == 1 + MembersNesting(FieldsMeaning(fields));
      if room > 0 {
        FitsFieldsIff(fields, room - 1);
      }
    case _ =>
  }

  lemma {:induction false} FitsElementsIff(e: Elements, room: nat)
    ensures FitsElements(e, room) <==> ItemsNesting(ElementsMeaning(e)) <= room && SoundElements(e)
    decreases e
  {
    if e.Element? {
      FitsIff(e.value, room);
      FitsElementsIff(e.next, room);
    }
  }

  lemma {:induction false} FitsFieldsIff(f: Fields, room: nat)
    ensures FitsFields(f, room) <==> MembersNesting(FieldsMeaning(f)) <= room && SoundFields(f)
    decreases f
  {
    if f.Field? {
      FitsIff(f.value, room);
      FitsFieldsIff(f.next, room);
    }
  }

  /** A value as a tree holds it: numbers rounded to doubles, and strings as C strings, which end at their first NUL. */
  function Held(v: Json): Json {
    match v
    case Number(d) => if d.Finite? then Number(ToDouble(d.x)) else v
    case Str(s) => Str(CStr(s))
    case Array(items) => Array(HeldItems(items))
    case Object(members) => Object(HeldMembers(members))
    case _ => v
  }

  function HeldItems(items: Items): Items {
    match items
    case NoItems => NoItems
    case Item(v, next) => Item(Held(v), HeldItems(next))
  }

  function HeldMembers(members: Members): Members {
    match members
    case NoMembers => NoMembers
    case Member(name, v, next) => Member(CStr(name), Held(v), HeldMembers(next))
  }

  predicate Holdable(v: Json) {
    match v
    case Number(d) => d.Finite? ==> ToDouble(d.x) == d
    case Str(s) => '\0' !in s
    case Array(items) => HoldableItems(items)
    case Object(members) => HoldableMembers(members)
    case _ => true
  }

  predicate HoldableItems(items: Items) {
    match items
    case NoItems => true
    case Item(v, next) => Holdable(v) && HoldableItems(next)
  }

  predicate HoldableMembers(members: Members) {
    match members
    case NoMembers => true
    case Member(name, v, next) => '\0' !in name && Holdable(v) && HoldableMembers(next)
  }

  lemma CStrKeepsIff(s: string)
    ensures CStr(s) == s <==> '\0' !in s
  {
    if '\0' !in s {
      CStrOfNulFree(s);
    }
  }

  /** Nothing is lost exactly if every number is a double and no string holds a NUL. */
  lemma {:induction false} HeldIff(v: Json)
    ensures Held(v) == v <==> Holdable(v)
    decreases v
  {
    match v
    case Str(s) => CStrKeepsIff(s);
    case Array(items) => HeldItemsIff(items);
    case Object(members) => HeldMembersIff(members);
    case _ =>
  }

  lemma {:induction false} HeldItemsIff(items: Items)
    ensures HeldItems(items) == items <==> HoldableItems(items)
    decreases items
  {
    if items.Item? {
      HeldIff(items.value);
      HeldItemsIff(items.next);
    }
  }

  lemma {:induction false} HeldMembersIff(members: Members)
    ensures HeldMembers(members) == members <==> HoldableMembers(members)
    decreases members
  {
    if members.Member? {
      CStrKeepsIff(members.name);
      HeldIff(members.value);
      HeldMembersIff(members.next);
    }
  }
}
