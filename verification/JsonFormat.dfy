/**
 How a print is set out, told by a reader that knows nothing of values: it goes over the characters with the brackets
 open so far, and accepts white space only where the print is to have it. And which characters a string is escaped by.
 */
module JsonFormat {
  import opened Common
  import opened Json
  import opened JsonStrings
  import opened Doubles
  import opened JsonNumbers
  import opened NumberFormat
  import opened JsonReading

  /** What has to come next outside of a string; Margin counts the tabs of a line that is being indented. */
  datatype Due = Anything | NewLine | Space | Tab | Margin(tabs: nat)

  /** The brackets open, the innermost first; whether the reader is in a string, and behind a backslash there. */
  datatype Reader = Reader(open: string, quoted: bool, escaped: bool, due: Due)

  function Next(r: Reader, c: char, format: bool): Option<Reader> {
    if r.quoted then NextQuoted(r, c)
    else
      match r.due
      case NewLine => if c == '\n' then Some(r.(due := Margin(0))) else None
      case Space => if c == ' ' then Some(r.(due := Anything)) else None
      case Tab => if c == '\t' then Some(r.(due := Anything)) else None
      case Margin(n) =>
        // a name is indented by the brackets open, the closing brace by one less
        if c == '\t' then Some(r.(due := Margin(n + 1)))
        else if c == '\"' && n == |r.open| then Some(r.(quoted := true, due := Anything))
        else if c == '}' && n + 1 == |r.open| then Closed(r.(due := Anything), '{')
        else None
      case Anything => NextToken(r, c, format)
  }

  function NextQuoted(r: Reader, c: char): Option<Reader> {
    if r.escaped then Some(r.(escaped := false))
    else if c == '\\' then Some(r.(escaped := true))
    else if c == '\"' then Some(r.(quoted := false))
    else if c < ' ' then None
    else Some(r)
  }

  function NextToken(r: Reader, c: char, format: bool): Option<Reader> {
    var inObject := r.open != "" && r.open[0] == '{';
    if c == '\"' then Some(r.(quoted := true))
    else if c == '[' then Some(r.(open := "[" + r.open))
    else if c == '{' then Some(r.(open := "{" + r.open, due := if format then NewLine else Anything))
    else if c == ']' then Closed(r, '[')
    else if c == '}' then if format then None else Closed(r, '{')
    else if c == ',' then Some(r.(due := if !format then Anything else if inObject then NewLine else Space))
    else if c == ':' then Some(r.(due := if format then Tab else Anything))
    else if c == '\n' && format && inObject then Some(r.(due := Margin(0)))
    else if c <= ' ' then None
    else Some(r)
  }

  /** The innermost bracket is closed, if it is of that kind. */
  function Closed(r: Reader, bracket: char): Option<Reader> {
    if r.open != "" && r.open[0] == bracket then Some(r.(open := r.open[1..])) else None
  }

  function Read(r: Option<Reader>, t: string, format: bool): Option<Reader>
    decreases |t|
  {
    if t == "" || r.None? then r else Read(Next(r.value, t[0], format), t[1..], format)
  }

  /** Set out as it should be: a formatted text by lines, tabs and spaces, any other without white space between tokens. */
  predicate SetOut(t: string, format: bool) {
    Read(Some(Outside("")), t, format) == Some(Outside(""))
  }

  function Outside(open: string): Reader { Reader(open, false, false, Anything) }

  lemma {:induction false} ReadJoins(r: Option<Reader>, a: string, b: string, format: bool)
    ensures Read(r, a + b, format) == Read(Read(r, a, format), b, format)
    decreases |a|
  {
    if a == "" || r.None? {
      assert a == "" ==> a + b == b;
    } else {
      assert (a + b)[1..] == a[1..] + b;
      ReadJoins(Next(r.value, a[0], format), a[1..], b, format);
    }
  }

  // -------------------------------------------------------------- strings

  /**
   Escaped are the quote, the backslash and the control characters, and nothing else; by the letter RFC 8259 has for the
   character if there is one, otherwise by its code in four lower-case digits.
   */
  lemma EscapedExactlyIf(c: char)
    ensures EscapeChar(c) == [c] <==> c >= ' ' && c != '\"' && c != '\\'
    ensures EscapeChar(c) != [c] && c as int in {0x08, 0x09, 0x0A, 0x0C, 0x0D, 0x22, 0x5C} ==>
              |EscapeChar(c)| == 2 && EscapeChar(c)[0] == '\\' && ShortMeaning(EscapeChar(c)[1]) == Some(c)
    ensures EscapeChar(c) != [c] && c as int !in {0x08, 0x09, 0x0A, 0x0C, 0x0D, 0x22, 0x5C} ==>
              && |EscapeChar(c)| == 6 && EscapeChar(c)[..2] == "\\u" && WordMeans(EscapeChar(c)[2..], c as int)
              && forall d :: d in EscapeChar(c)[2..] ==> !('A' <= d <= 'F')
  {
  }

  function Inside(open: string): Reader { Reader(open, true, false, Anything) }

  /** Characters that leave a reader inside a string where it is. */
  predicate QuotedPlain(t: string) {
    forall i :: 0 <= i < |t| ==> t[i] >= ' ' && t[i] != '\"' && t[i] != '\\'
  }

  lemma {:induction false} PlainRead(open: string, t: string, format: bool)
    requires QuotedPlain(t)
    ensures Read(Some(Inside(open)), t, format) == Some(Inside(open))
    decreases |t|
  {
    if t != "" {
      assert Next(Inside(open), t[0], format) == Some(Inside(open));
      PlainRead(open, t[1..], format);
    }
  }

  lemma PairRead(open: string, e: char, rest: string, format: bool)
    requires QuotedPlain(rest)
    ensures Read(Some(Inside(open)), ['\\', e] + rest, format) == Some(Inside(open))
  {
    var t, behind := ['\\', e] + rest, Inside(open).(escaped := true);
    assert Next(Inside(open), t[0], format) == Some(behind) && t[1..] == [e] + rest;
    assert Next(behind, t[1..][0], format) == Some(Inside(open)) && t[1..][1..] == rest;
    PlainRead(open, rest, format);
  }

  lemma CharRead(open: string, c: char, format: bool)
    ensures Read(Some(Inside(open)), EscapeChar(c), format) == Some(Inside(open))
  {
    var t := EscapeChar(c);
    if t == [c] {
      EscapedExactlyIf(c);
      PlainRead(open, t, format);
    } else {
      assert t == ['\\', t[1]] + t[2..];
      PairRead(open, t[1], t[2..], format);
    }
  }

  lemma {:induction false} EscapeRead(open: string, s: string, format: bool)
    ensures Read(Some(Inside(open)), Escape(s), format) == Some(Inside(open))
  {
    if s != "" {
      ReadJoins(Some(Inside(open)), EscapeChar(s[0]), Escape(s[1..]), format);
      CharRead(open, s[0], format);
      EscapeRead(open, s[1..], format);
    }
  }

  /** A quoted string, wherever one may start. */
  lemma QuoteRead(r: Reader, s: string, format: bool)
    requires Next(r, '\"', format) == Some(Inside(r.open))
    ensures Read(Some(r), Quote(s), format) == Some(Outside(r.open))
  {
    var body := Escape(s);
    EscapeRead(r.open, s, format);
    OneRead(r, '\"', format);
    OneRead(Inside(r.open), '\"', format);
    ReadJoins(Some(r), "\"", body, format);
    ReadJoins(Some(r), "\"" + body, "\"", format);
  }

  lemma OneRead(r: Reader, c: char, format: bool)
    ensures Read(Some(r), [c], format) == Next(r, c, format)
  {
    assert [c][1..] == "";
  }

  lemma TwoRead(r: Reader, c: char, d: char, format: bool)
    requires Next(r, c, format).Some?
    ensures Read(Some(r), [c, d], format) == Next(Next(r, c, format).value, d, format)
  {
    assert [c, d][1..] == [d];
    OneRead(Next(r, c, format).value, d, format);
  }

  // --------------------------------------------------------------- tokens

  /** Characters of numbers and of the three names. */
  predicate Unremarkable(t: string) {
    forall i :: 0 <= i < |t| ==> IsNumberChar(t[i]) || 'a' <= t[i] <= 'z'
  }

  lemma {:induction false} TokenRead(open: string, t: string, format: bool)
    requires Unremarkable(t)
    ensures Read(Some(Outside(open)), t, format) == Some(Outside(open))
    decreases |t|
  {
    if t != "" {
      assert Next(Outside(open), t[0], format) == Some(Outside(open));
      TokenRead(open, t[1..], format);
    }
  }

  lemma NumberRead(d: Double, open: string, format: bool)
    ensures Read(Some(Outside(open)), NumberPrint(d), format) == Some(Outside(open))
  {
    if d.Finite? {
      PrintedIsNumeral(d.x);
      NumeralChars(Printed(d.x));
    }
    TokenRead(open, NumberPrint(d), format);
  }

  lemma {:induction false} TabsRead(open: string, n: nat, m: nat)
    ensures Read(Some(Reader(open, false, false, Margin(n))), Tabs(m), true)
         == Some(Reader(open, false, false, Margin(n + m)))
    decreases m
  {
    if m > 0 {
      var r := Reader(open, false, false, Margin(n));
      OneRead(r, '\t', true);
      ReadJoins(Some(r), "\t", Tabs(m - 1), true);
      TabsRead(open, n + 1, m - 1);
    }
  }

  // --------------------------------------------------------------- values

  /** Where the members of an object, or its closing brace, start: at the beginning of a line, if there are lines. */
  function LineStart(open: string, format: bool): Reader {
    Reader(open, false, false, if format then Margin(0) else Anything)
  }

  /** Every value is printed as it should be set out, within whatever brackets it stands. */
  lemma {:induction false} ValueRead(v: Json, open: string, format: bool)
    ensures Read(Some(Outside(open)), Render(v, format, |open|), format) == Some(Outside(open))
    decreases v
  {
    match v
    case Array(items) =>
      ItemsRead(items, "[" + open, format);
      ArrayRead(items, open, "[" + open, format);
    case Object(members) =>
      MembersRead(members, "{" + open, format);
      ObjectRead(members, open, "{" + open, format);
    case _ => ScalarRead(v, open, format);
  }

  lemma ScalarRead(v: Json, open: string, format: bool)
    requires !v.Array? && !v.Object?
    ensures Read(Some(Outside(open)), Render(v, format, |open|), format) == Some(Outside(open))
  {
    match v
    case Number(d) => NumberRead(d, open, format);
    case Str(s) => QuoteRead(Outside(open), s, format);
    case Null => TokenRead(open, "null", format);
    case False => TokenRead(open, "false", format);
    case True => TokenRead(open, "true", format);
  }

  lemma ArrayRead(items: Items, open: string, inner: string, format: bool)
    requires inner == "[" + open
    requires Read(Some(Outside(inner)), RenderItems(items, format, |inner|), format) == Some(Outside(inner))
    ensures Read(Some(Outside(open)), Render(Array(items), format, |open|), format) == Some(Outside(open))
  {
    BracketsRead(RenderItems(items, format, |inner|), open, inner, format);
  }

  lemma BracketsRead(body: string, open: string, inner: string, format: bool)
    requires inner == "[" + open && Read(Some(Outside(inner)), body, format) == Some(Outside(inner))
    ensures Read(Some(Outside(open)), "[" + body + "]", format) == Some(Outside(open))
  {
    OneRead(Outside(open), '[', format);
    ReadJoins(Some(Outside(open)), "[", body, format);
    ReadJoins(Some(Outside(open)), "[" + body, "]", format);
    OneRead(Outside(inner), ']', format);
  }

  lemma ObjectRead(members: Members, open: string, inner: string, format: bool)
    requires inner == "{" + open
    requires Read(Some(LineStart(inner, format)), RenderMembers(members, format, |inner|), format)
          == Some(LineStart(inner, format))
    ensures Read(Some(Outside(open)), Render(Object(members), format, |open|), format) == Some(Outside(open))
  {
    BracesRead(RenderMembers(members, format, |inner|), open, inner, format);
  }

  lemma BracesRead(body: string, open: string, inner: string, format: bool)
    requires inner == "{" + open
    requires Read(Some(LineStart(inner, format)), body, format) == Some(LineStart(inner, format))
    ensures Read(Some(Outside(open)), OpenBrace(format) + body + CloseBrace(format, |open|), format) == Some(Outside(open))
  {
    var r := Some(Outside(open));
    OpenRead(open, inner, format);
    CloseRead(open, inner, format);
    ReadJoins(r, OpenBrace(format), body, format);
    ReadJoins(r, OpenBrace(format) + body, CloseBrace(format, |open|), format);
  }

  lemma OpenRead(open: string, inner: string, format: bool)
    requires inner == "{" + open
    ensures Read(Some(Outside(open)), OpenBrace(format), format) == Some(LineStart(inner, format))
  {
    if format {
      TwoRead(Outside(open), '{', '\n', format);
    } else {
      OneRead(Outside(open), '{', format);
    }
  }

  lemma CloseRead(open: string, inner: string, format: bool)
    requires inner == "{" + open
    ensures Read(Some(LineStart(inner, format)), CloseBrace(format, |open|), format) == Some(Outside(open))
  {
    if format {
      TabsRead(inner, 0, |open|);
      OneRead(Reader(inner, false, false, Margin(|open|)), '}', format);
      ReadJoins(Some(LineStart(inner, format)), Tabs(|open|), "}", format);
    } else {
      OneRead(Outside(inner), '}', format);
    }
  }

  lemma {:induction false} ItemsRead(items: Items, open: string, format: bool)
    requires open != "" && open[0] == '['
    ensures Read(Some(Outside(open)), RenderItems(items, format, |open|), format) == Some(Outside(open))
    decreases items
  {
    if items.Item? {
      var r := Some(Outside(open));
      var value, gap := Render(items.value, format, |open|), ItemSeparator(format, items.next.NoItems?);
      var rest := RenderItems(items.next, format, |open|);
      ValueRead(items.value, open, format);
      GapRead(open, format, items.next.NoItems?);
      ItemsRead(items.next, open, format);
      ReadJoins(r, gap, rest, format);
      ReadJoins(r, value, gap + rest, format);
    }
  }

  lemma GapRead(open: string, format: bool, last: bool)
    requires open != "" && open[0] == '['
    ensures Read(Some(Outside(open)), ItemSeparator(format, last), format) == Some(Outside(open))
  {
    if !last && format {
      TwoRead(Outside(open), ',', ' ', format);
    } else if !last {
      OneRead(Outside(open), ',', format);
    }
  }

  lemma {:induction false} MembersRead(members: Members, open: string, format: bool)
    requires open != "" && open[0] == '{'
    ensures Read(Some(LineStart(open, format)), RenderMembers(members, format, |open|), format) == Some(LineStart(open, format))
    decreases members
  {
    if members.Member? {
      var value, rest := Render(members.value, format, |open|), RenderMembers(members.next, format, |open|);
      ValueRead(members.value, open, format);
      MembersRead(members.next, open, format);
      MemberRead(members.name, value, rest, open, format, members.next.NoMembers?);
    }
  }

  lemma MemberRead(name: string, value: string, rest: string, open: string, format: bool, last: bool)
    requires open != "" && open[0] == '{'
    requires Read(Some(Outside(open)), value, format) == Some(Outside(open))
    requires Read(Some(LineStart(open, format)), rest, format) == Some(LineStart(open, format))
    ensures Read(Some(LineStart(open, format)), Indent(format, |open|) + (Quote(name) + (Colon(format) + (value
                 + (MemberSeparator(format, last) + rest)))), format) == Some(LineStart(open, format))
  {
    var r, gap := Some(Outside(open)), MemberSeparator(format, last);
    ReadJoins(r, gap, rest, format);
    BreakRead(open, format, last);
    var t := gap + rest;
    ReadJoins(r, value, t, format);
    var u := value + t;
    ReadJoins(r, Colon(format), u, format);
    ColonRead(open, format);
    NameRead(name, Colon(format) + u, open, format);
  }

  lemma NameRead(name: string, rest: string, open: string, format: bool)
    ensures Read(Some(LineStart(open, format)), Indent(format, |open|) + (Quote(name) + rest), format)
         == Read(Some(Outside(open)), rest, format)
  {
    var start := if format then Reader(open, false, false, Margin(|open|)) else Outside(open);
    if format {
      TabsRead(open, 0, |open|);
    }
    ReadJoins(Some(LineStart(open, format)), Indent(format, |open|), Quote(name) + rest, format);
    ReadJoins(Some(start), Quote(name), rest, format);
    QuoteRead(start, name, format);
  }

  lemma ColonRead(open: string, format: bool)
    ensures Read(Some(Outside(open)), Colon(format), format) == Some(Outside(open))
  {
    if format {
      TwoRead(Outside(open), ':', '\t', format);
    } else {
      OneRead(Outside(open), ':', format);
    }
  }

  lemma BreakRead(open: string, format: bool, last: bool)
    requires open != "" && open[0] == '{'
    ensures Read(Some(Outside(open)), MemberSeparator(format, last), format) == Some(LineStart(open, format))
  {
    if format && last {
      OneRead(Outside(open), '\n', format);
      assert MemberSeparator(format, last) == ['\n'];
    } else if format {
      TwoRead(Outside(open), ',', '\n', format);
      assert MemberSeparator(format, last) == [',', '\n'];
    } else if !last {
      OneRead(Outside(open), ',', format);
      assert MemberSeparator(format, last) == [','];
    }
  }

  /**
   The formatted print of every value has each member on a line of its own, indented by a tab for each bracket around it,
   and its closing brace by one less; a tab behind a colon, a space behind an element's comma, and no other white space.
   The other print has none at all outside of strings. No print has a control character inside of one.
   */
  lemma PrintIsSetOut(v: Json, format: bool)
    ensures SetOut(Render(v, format, 0), format)
  {
    ValueRead(v, "", format);
  }
}
