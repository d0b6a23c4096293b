/**
 Printing writes JSON: either print of a value is a text of the grammar that denotes the value. So parsing undoes
 printing, for every printable value whose nesting is within the limit; deeper values are refused.
 */
module JsonRoundTrip {
  import opened Common
  import opened Json
  import opened JsonStrings
  import opened NumberFormat
  import opened JsonParser
  import opened JsonGrammar
  import opened JsonReading

  // --------------------------------------------------- the syntax of a print

  /** How the printer writes one character. */
  function UnitOf(c: char, next: Units): Units {
    if c == '\"' || c == '\\' then Short(c, next)
    else if c == BACKSPACE then Short('b', next)
    else if c == FORM_FEED then Short('f', next)
    else if c == '\n' then Short('n', next)
    else if c == '\r' then Short('r', next)
    else if c == '\t' then Short('t', next)
    else if c < ' ' then Hex("00" + [HexDigit(c as int / 16), HexDigit(c as int % 16)], next)
    else Verbatim(c, next)
  }

  function UnitsOf(s: string): Units {
    if s == "" then NoUnits else UnitOf(s[0], UnitsOf(s[1..]))
  }

  function Newline(format: bool): string { if format then "\n" else "" }

  /** A new line, indented. */
  function Break(format: bool, d: nat): string { Newline(format) + Indent(format, d) }

  /** The syntax tree of the print of v at nesting depth d. */
  function Layout(v: Json, format: bool, d: nat): Syntax {
    match v
    case Null => NullText
    case False => FalseText
    case True => TrueText
    case Number(d) => if d.Finite? then DecimalText(Printed(d.x)) else NullText
    case Str(s) => StringText(UnitsOf(s))
    case Array(items) => ArrayText("", LayoutItems(items, format, d + 1, true))
    case Object(members) =>
      ObjectText(if members.NoMembers? then Break(format, d) else "", LayoutMembers(members, format, d))
  }

  function Gap(format: bool, first: bool): string {
    if format && !first then " " else ""
  }

  function LayoutItems(items: Items, format: bool, d: nat, first: bool): Elements {
    match items
    case NoItems => NoElements
    case Item(v, next) => Element(Gap(format, first), Layout(v, format, d), "", LayoutItems(next, format, d, false))
  }

  /** The members of an object at nesting depth d. */
  function LayoutMembers(members: Members, format: bool, d: nat): Fields {
    match members
    case NoMembers => NoFields
    case Member(name, v, next) =>
      Field(Break(format, d + 1), UnitsOf(name), "", if format then "\t" else "", Layout(v, format, d + 1),
            if next.NoMembers? then Break(format, d) else "", LayoutMembers(next, format, d))
  }

  // --------------------------------------------------- it is the print's text

  lemma {:induction false} StringPrint(s: string)
    ensures UnitsText(UnitsOf(s)) == Escape(s)
  {
    if s != "" {
      StringPrint(s[1..]);
      UnitPrint(s[0], UnitsOf(s[1..]));
    }
  }

  lemma UnitPrint(c: char, next: Units)
    ensures UnitsText(UnitOf(c, next)) == EscapeChar(c) + UnitsText(next)
  {
    match UnitOf(c, next)
    case Hex(digits, _) => HexPrint(c, digits, UnitsText(next));
    case Short(e, _) => ShortPrint(c, e);
    case Verbatim(_, _) => assert EscapeChar(c) == [c];
  }

  lemma HexPrint(c: char, digits: string, rest: string)
    requires c < ' ' && digits == "00" + [HexDigit(c as int / 16), HexDigit(c as int % 16)] && EscapeChar(c) == UnicodeEscape(c)
    ensures "\\u" + (digits + rest) == EscapeChar(c) + rest
  {
    assert "\\u" + digits == UnicodeEscape(c);
    Assoc("\\u", digits, rest);
  }

  lemma ShortPrint(c: char, e: char)
    requires UnitOf(c, NoUnits) == Short(e, NoUnits)
    ensures EscapeChar(c) == ['\\', e]
  {
  }

  lemma QuotePrint(s: string)
    ensures Quoted(UnitsOf(s)) == Quote(s)
  {
    StringPrint(s);
  }

  /** The print of a value is the text of its syntax tree. */
  lemma {:induction false} LayoutPrint(v: Json, format: bool, d: nat)
    ensures TextOf(Layout(v, format, d)) == Render(v, format, d)
    decreases v
  {
    match v
    case Str(s) => QuotePrint(s);
    case Array(items) =>
      ItemsPrint(items, format, d + 1, true);
      ArrayPrint(items, format, d);
    case Object(members) =>
      MembersPrint(members, format, d);
      ObjectPrint(members, format, d);
    case _ =>
  }

  lemma ArrayPrint(items: Items, format: bool, d: nat)
    requires ElementsText(LayoutItems(items, format, d + 1, true))
          == (if items.Item? then Gap(format, true) else "") + RenderItems(items, format, d + 1)
    ensures TextOf(Layout(Array(items), format, d)) == Render(Array(items), format, d)
  {
    var inner := ElementsText(LayoutItems(items, format, d + 1, true));
    ArrayBrackets(inner, RenderItems(items, format, d + 1), if items.Item? then Gap(format, true) else "");
  }

  lemma ArrayBrackets(inner: string, body: string, gap: string)
    requires inner == gap + body && gap == ""
    ensures "[" + ("" + (inner + "]")) == "[" + body + "]"
  {
    assert inner == body && "" + (inner + "]") == inner + "]";
    Assoc("[", inner, "]");
  }

  lemma {:induction false} ItemsPrint(items: Items, format: bool, d: nat, first: bool)
    ensures ElementsText(LayoutItems(items, format, d, first))
         == (if items.Item? then Gap(format, first) else "") + RenderItems(items, format, d)
    decreases items
  {
    if items.Item? {
      LayoutPrint(items.value, format, d);
      ItemsPrint(items.next, format, d, false);
      ItemPrint(items, format, d, first);
    }
  }

  lemma ItemPrint(items: Items, format: bool, d: nat, first: bool)
    requires items.Item? && TextOf(Layout(items.value, format, d)) == Render(items.value, format, d)
    requires ElementsText(LayoutItems(items.next, format, d, false))
          == (if items.next.Item? then Gap(format, false) else "") + RenderItems(items.next, format, d)
    ensures ElementsText(LayoutItems(items, format, d, first)) == Gap(format, first) + RenderItems(items, format, d)
  {
    var rest := LayoutItems(items.next, format, d, false);
    assert "" + MoreElements(rest) == ItemSeparator(format, items.next.NoItems?) + RenderItems(items.next, format, d);
  }

  /** The members' print between the braces, with the white space that goes with them. */
  function Inside(members: Members, format: bool, d: nat): string {
    Newline(format) + RenderMembers(members, format, d + 1) + Indent(format, d)
  }

  lemma ObjectPrint(members: Members, format: bool, d: nat)
    requires members.Member? ==> FieldsText(LayoutMembers(members, format, d)) == Inside(members, format, d)
    ensures TextOf(Layout(Object(members), format, d)) == Render(Object(members), format, d)
  {
    var text, space, inner := ObjectSyntax(members, format, d);
    var whole, newline, body, indent := ObjectRender(members, format, d);
    SpaceAndInner(members, format, d, space, inner, newline, body, indent);
    Braced(space, inner, newline, body, indent);
  }

  lemma ObjectSyntax(members: Members, format: bool, d: nat) returns (text: string, space: string, inner: string)
    ensures text == TextOf(Layout(Object(members), format, d)) && text == "{" + (space + (inner + "}"))
    ensures inner == FieldsText(LayoutMembers(members, format, d))
    ensures space == if members.NoMembers? then Break(format, d) else ""
  {
    text, inner := TextOf(Layout(Object(members), format, d)), FieldsText(LayoutMembers(members, format, d));
    space := if members.NoMembers? then Break(format, d) else "";
  }

  lemma ObjectRender(members: Members, format: bool, d: nat) returns (whole: string, newline: string, body: string, indent: string)
    ensures whole == Render(Object(members), format, d) && whole == ("{" + newline) + body + (indent + "}")
    ensures newline == Newline(format) && body == RenderMembers(members, format, d + 1) && indent == Indent(format, d)
  {
    whole, body := Render(Object(members), format, d), RenderMembers(members, format, d + 1);
    newline, indent := Newline(format), Indent(format, d);
    Braces(format, d);
  }

  lemma Braces(format: bool, d: nat)
    ensures OpenBrace(format) == "{" + Newline(format) && CloseBrace(format, d) == Indent(format, d) + "}"
  {
  }

  lemma SpaceAndInner(members: Members, format: bool, d: nat, space: string, inner: string, newline: string, body: string,
                      indent: string)
    requires inner == FieldsText(LayoutMembers(members, format, d)) && space == if members.NoMembers? then Break(format, d) else ""
    requires newline == Newline(format) && body == RenderMembers(members, format, d + 1) && indent == Indent(format, d)
    requires members.Member? ==> inner == Inside(members, format, d)
    ensures space + inner == newline + body + indent
  {
    if members.NoMembers? {
      assert body == "" && inner == "";
      Unpadded(newline, indent);
    } else {
      assert "" + inner == inner;
    }
  }

  lemma Braced(space: string, inner: string, newline: string, body: string, indent: string)
    requires space + inner == newline + body + indent
    ensures "{" + (space + (inner + "}")) == ("{" + newline) + body + (indent + "}")
  {
    Assoc(space, inner, "}");
    Assoc(newline + body, indent, "}");
    Assoc("{", newline, body);
    Assoc("{", newline + body, indent + "}");
  }

  lemma {:induction false} MembersPrint(members: Members, format: bool, d: nat)
    ensures members.Member? ==> FieldsText(LayoutMembers(members, format, d)) == Inside(members, format, d)
    decreases members
  {
    if members.Member? {
      QuotePrint(members.name);
      LayoutPrint(members.value, format, d + 1);
      MembersPrint(members.next, format, d);
      MemberPrint(members, format, d);
    }
  }

  lemma MemberPrint(members: Members, format: bool, d: nat)
    requires members.Member? && Quoted(UnitsOf(members.name)) == Quote(members.name)
    requires TextOf(Layout(members.value, format, d + 1)) == Render(members.value, format, d + 1)
    requires members.next.Member? ==> FieldsText(LayoutMembers(members.next, format, d)) == Inside(members.next, format, d)
    ensures FieldsText(LayoutMembers(members, format, d)) == Inside(members, format, d)
  {
    var f, indent := LayoutMembers(members, format, d), Indent(format, d);
    var rest := MemberSeparator(format, members.next.NoMembers?) + RenderMembers(members.next, format, d + 1);
    var tab := if format then "\t" else "";
    var value, name := Render(members.value, format, d + 1), Quote(members.name);
    RestPrint(members, format, d, f);
    FieldPrint(f, name, value, rest + indent);
    MemberInside(members, format, d, tab, value, name, rest, indent);
  }

  lemma MemberInside(members: Members, format: bool, d: nat, tab: string, value: string, name: string, rest: string,
                     indent: string)
    requires members.Member? && tab == (if format then "\t" else "") && indent == Indent(format, d)
    requires value == Render(members.value, format, d + 1) && name == Quote(members.name)
    requires rest == MemberSeparator(format, members.next.NoMembers?) + RenderMembers(members.next, format, d + 1)
    ensures Break(format, d + 1) + (name + ("" + (":" + (tab + (value + (rest + indent)))))) == Inside(members, format, d)
  {
    assert ":" + tab == Colon(format);
    Regrouped(Newline(format), Indent(format, d + 1), name, tab, value, rest, indent);
  }

  lemma FieldPrint(f: Fields, name: string, value: string, tail: string)
    requires f.Field? && Quoted(f.name) == name && f.beforeColon == "" && TextOf(f.value) == value
    requires f.after + MoreFields(f.next) == tail
    ensures FieldsText(f) == f.before + (name + ("" + (":" + (f.afterColon + (value + tail)))))
  {
  }

  /** What stands behind a member's value. */
  lemma RestPrint(members: Members, format: bool, d: nat, f: Fields)
    requires members.Member? && f == LayoutMembers(members, format, d)
    requires members.next.Member? ==> FieldsText(f.next) == Inside(members.next, format, d)
    ensures f.after + MoreFields(f.next)
         == MemberSeparator(format, members.next.NoMembers?) + RenderMembers(members.next, format, d + 1) + Indent(format, d)
  {
    var newline, others, indent := Newline(format), RenderMembers(members.next, format, d + 1), Indent(format, d);
    Separators(format);
    if members.next.NoMembers? {
      assert f.after == newline + indent && MoreFields(f.next) == "" && others == "";
      Unpadded(newline, indent);
    } else {
      assert f.after == "" && MoreFields(f.next) == "," + (newline + others + indent);
      Assoc4(",", newline, others, indent);
    }
  }

  lemma Separators(format: bool)
    ensures MemberSeparator(format, true) == Newline(format) && MemberSeparator(format, false) == "," + Newline(format)
  {
  }

  lemma Unpadded(newline: string, indent: string)
    ensures (newline + indent) + "" == newline + "" + indent
  {
  }

  lemma Assoc4(a: string, b: string, c: string, d: string)
    ensures "" + (a + (b + c + d)) == (a + b) + c + d
  {
  }

  lemma Regrouped(a: string, b: string, c: string, tab: string, v: string, rest: string, end: string)
    ensures (a + b) + (c + ("" + (":" + (tab + (v + (rest + end)))))) == a + (b + (c + ((":" + tab) + (v + rest)))) + end
  {
  }

  // --------------------------------------------------- it denotes the value

  lemma {:induction false} StringMeans(s: string)
    ensures IsUnits(UnitsOf(s)) && Paired(UnitsOf(s)) && Spelled(UnitsOf(s)) == s
  {
    if s != "" {
      StringMeans(s[1..]);
      UnitMeans(s[0], UnitsOf(s[1..]));
      assert s == [s[0]] + s[1..];
    }
  }

  lemma UnitMeans(c: char, next: Units)
    requires IsUnits(next) && Paired(next)
    ensures IsUnits(UnitOf(c, next)) && Paired(UnitOf(c, next)) && Spelled(UnitOf(c, next)) == [c] + Spelled(next)
  {
    match UnitOf(c, next)
    case Hex(digits, _) => ControlMeans(c, digits);
    case Short(e, _) => assert ShortMeaning(e) == Some(c);
    case _ =>
  }

  lemma ControlMeans(c: char, digits: string)
    requires c < ' ' && digits == "00" + [HexDigit(c as int / 16), HexDigit(c as int % 16)]
    ensures IsHex(digits) && Word(digits) == c as int && Utf8(c as int) == [c]
  {
    HexDigitMeans(0);
    HexDigitMeans(c as int / 16);
    HexDigitMeans(c as int % 16);
    assert digits[0] == '0' && digits[1] == '0' && digits[2] == HexDigit(c as int / 16) && digits[3] == HexDigit(c as int % 16);
    assert c as int / 16 / 16 == 0;
    MeantIsWord(digits, c as int);
  }

  lemma {:induction false} TabsSpace(n: nat)
    ensures AllSpace(Tabs(n))
  {
    if n > 0 {
      TabsSpace(n - 1);
    }
  }

  /** The print of any value is a text of the grammar. */
  lemma {:induction false} LayoutIsText(v: Json, format: bool, d: nat)
    ensures IsText(Layout(v, format, d))
    decreases v
  {
    match v
    case Number(d) =>
      if d.Finite? {
        PrintedIsNumeral(d.x);
      }
    case Str(s) => StringMeans(s);
    case Array(items) => ItemsAreText(items, format, d + 1, true);
    case Object(members) =>
      TabsSpace(d);
      MembersAreText(members, format, d);
    case _ =>
  }

  lemma {:induction false} ItemsAreText(items: Items, format: bool, d: nat, first: bool)
    ensures IsElements(LayoutItems(items, format, d, first))
    decreases items
  {
    if items.Item? {
      LayoutIsText(items.value, format, d);
      ItemsAreText(items.next, format, d, false);
    }
  }

  lemma {:induction false} MembersAreText(members: Members, format: bool, d: nat)
    ensures IsFields(LayoutMembers(members, format, d))
    decreases members
  {
    if members.Member? {
      TabsSpace(d);
      TabsSpace(d + 1);
      StringMeans(members.name);
      LayoutIsText(members.value, format, d + 1);
      MembersAreText(members.next, format, d);
    }
  }

  /** What a print can bring back: infinities and NaN are printed as null. */
  function Recovered(v: Json): Json {
    match v
    case Number(d) => if d.Finite? then v else Null
    case Array(items) => Array(RecoveredItems(items))
    case Object(members) => Object(RecoveredMembers(members))
    case _ => v
  }

  function RecoveredItems(items: Items): Items {
    match items
    case NoItems => NoItems
    case Item(v, next) => Item(Recovered(v), RecoveredItems(next))
  }

  function RecoveredMembers(members: Members): Members {
    match members
    case NoMembers => NoMembers
    case Member(name, v, next) => Member(name, Recovered(v), RecoveredMembers(next))
  }

  predicate AllFinite(v: Json) {
    match v
    case Number(d) => d.Finite?
    case Array(items) => AllFiniteItems(items)
    case Object(members) => AllFiniteMembers(members)
    case _ => true
  }

  predicate AllFiniteItems(items: Items) {
    match items
    case NoItems => true
    case Item(v, next) => AllFinite(v) && AllFiniteItems(next)
  }

  predicate AllFiniteMembers(members: Members) {
    match members
    case NoMembers => true
    case Member(_, v, next) => AllFinite(v) && AllFiniteMembers(next)
  }

  /** Everything comes back exactly if all numbers are finite. */
  lemma {:induction false} RecoveredIff(v: Json)
    ensures Recovered(v) == v <==> AllFinite(v)
    decreases v
  {
    match v
    case Array(items) => RecoveredItemsIff(items);
    case Object(members) => RecoveredMembersIff(members);
    case _ =>
  }

  lemma {:induction false} RecoveredItemsIff(items: Items)
    ensures RecoveredItems(items) == items <==> AllFiniteItems(items)
    decreases items
  {
    if items.Item? {
      RecoveredIff(items.value);
      RecoveredItemsIff(items.next);
    }
  }

  lemma {:induction false} RecoveredMembersIff(members: Members)
    ensures RecoveredMembers(members) == members <==> AllFiniteMembers(members)
    decreases members
  {
    if members.Member? {
      RecoveredIff(members.value);
      RecoveredMembersIff(members.next);
    }
  }

  /** The print of a value can be read, and a tree holds what it denotes as that value, as far as it comes back. */
  lemma {:induction false} LayoutMeans(v: Json, format: bool, d: nat)
    requires Printable(v)
    ensures Held(Meaning(Layout(v, format, d))) == Recovered(v) && Nesting(Meaning(Layout(v, format, d))) == Nesting(v)
    ensures Sound(Layout(v, format, d))
    decreases v
  {
    match v
    case Number(d) =>
      if d.Finite? {
        PrintedReads(d.x);
        PrintedShort(d.x);
      }
    case Str(s) =>
      StringMeans(s);
      CStrOfNulFree(s);
    case Array(items) => ItemsMean(items, format, d + 1, true);
    case Object(members) => MembersMean(members, format, d);
    case _ =>
  }

  lemma {:induction false} ItemsMean(items: Items, format: bool, d: nat, first: bool)
    requires PrintableItems(items)
    ensures var e := LayoutItems(items, format, d, first);
            && HeldItems(ElementsMeaning(e)) == RecoveredItems(items) && ItemsNesting(ElementsMeaning(e)) == ItemsNesting(items)
            && SoundElements(e)
    decreases items
  {
    if items.Item? {
      LayoutMeans(items.value, format, d);
      ItemsMean(items.next, format, d, false);
    }
  }

  lemma {:induction false} MembersMean(members: Members, format: bool, d: nat)
    requires PrintableMembers(members)
    ensures var f := LayoutMembers(members, format, d);
            && HeldMembers(FieldsMeaning(f)) == RecoveredMembers(members) && MembersNesting(FieldsMeaning(f)) == MembersNesting(members)
            && SoundFields(f)
    decreases members
  {
    if members.Member? {
      StringMeans(members.name);
      CStrOfNulFree(members.name);
      LayoutMeans(members.value, format, d + 1);
      MembersMean(members.next, format, d);
    }
  }

  // --------------------------------------------------------- prints are C strings

  lemma EscapeNulFree(t: string)
    ensures '\0' !in Escape(t)
  {
    StringPrint(t);
    StringMeans(t);
    UnitsNulFree(UnitsOf(t));
  }

  lemma TabsNulFree(n: nat)
    ensures '\0' !in Tabs(n)
  {
    TabsSpace(n);
  }

  lemma RenderNulFree(v: Json, format: bool, d: nat)
    ensures '\0' !in Render(v, format, d)
  {
    LayoutPrint(v, format, d);
    LayoutIsText(v, format, d);
    SyntaxNulFree(Layout(v, format, d));
  }

  /** Escaping and unescaping are inverse, wherever the escaped text stands in front of a closing quote. */
  lemma EscapeRoundTrip(s: string, p: nat, t: string, end: nat)
    requires At(s, p, Escape(t)) && end == p + |Escape(t)| && end < |s| && s[end] == '\"'
    ensures Scan(s, p).End? && Scan(s, p).at == end
    ensures Unescape(s, p, end).ok && Unescape(s, p, end).bytes == t
  {
    StringPrint(t);
    StringMeans(t);
    UnitsScan(s, p, UnitsOf(t), end);
    UnitsWrite(s, p, UnitsOf(t), end);
  }

  /**
   The round trip: parsing either print of a value gives that value back, with null in place of infinities and NaN, and
   uses up the text, exactly if the value is nested within the limit; beyond the limit the parse fails.
   */
  lemma PrintParseRoundTrip(v: Json, format: bool, requireNullTerminated: bool, limit: nat)
    requires Printable(v)
    ensures '\0' !in Render(v, format, 0)
    ensures var r := Parse(Render(v, format, 0), requireNullTerminated, limit);
            if Nesting(v) <= limit then r == Ok(Recovered(v), |Render(v, format, 0)|) else r.Fail?
  {
    var t := Layout(v, format, 0);
    LayoutPrint(v, format, 0);
    LayoutIsText(v, format, 0);
    LayoutMeans(v, format, 0);
    assert "" + (TextOf(t) + "") == Render(v, format, 0);
    TextDecides("", t, "", requireNullTerminated, limit);
  }

  /**
   And the other way about: whatever the parser reads out of a text, in the grammar or not, either print of it reads back
   as the same value, with null in place of infinities.
   */
  lemma ParsePrintParse(text: string, requireNullTerminated: bool, format: bool, limit: nat)
    requires '\0' !in text && Parse(text, requireNullTerminated, limit).Ok?
    ensures var v := Parse(text, requireNullTerminated, limit).value;
            Printable(v) && '\0' !in Render(v, format, 0)
            && Parse(Render(v, format, 0), true, limit) == Ok(Recovered(v), |Render(v, format, 0)|)
  {
    var s := text + "\0";
    var r := NeverBeyondLimit(s, SkipWs(s, 0), 0, limit);
    PrintParseRoundTrip(r.value, format, true, limit);
  }
}
