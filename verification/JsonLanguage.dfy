/**
 What the parser refuses: everything outside a grammar only a little wider than that of RFC 8259. Whatever is accepted
 consists of tokens, white space and punctuation in their places, and is read as the tree its tokens are nested in.

 Wider are: any character up to the space as white space, any character between the quotes of a string, and any run of
 the characters of numbers behind a digit or a minus, of which the conversion takes the beginning it understands.
 */
module JsonLanguage {
  import opened Json
  import opened JsonStrings
  import opened JsonNumbers
  import opened JsonParser

  ghost predicate AllBlank(t: string) { forall i :: 0 <= i < |t| ==> t[i] <= ' ' }

  /** What may stand between two quotes: a backslash is never without a character behind it, and a quote never without one in front. */
  ghost predicate IsBody(b: string)
    decreases |b|
  {
    b != "" ==>
      if b[0] == '\\' then |b| >= 2 && IsBody(b[2..]) else b[0] != '\"' && IsBody(b[1..])
  }

  ghost predicate IsStringToken(t: string) {
    |t| >= 2 && t[0] == '\"' && t[|t| - 1] == '\"' && IsBody(t[1..|t| - 1])
  }

  ghost predicate IsNumberToken(t: string) {
    && 0 < |t| <= MAX_NUMBER_LENGTH && (t[0] == '-' || IsDigit(t[0]))
    && forall i :: 0 <= i < |t| ==> IsNumberChar(t[i])
  }

  /** A token and the value it is read as. */
  ghost predicate IsToken(t: string, v: Json) {
    match v
    case Null => t == "null"
    case False => t == "false"
    case True => t == "true"
    case Number(_) => IsNumberToken(t)
    case Str(_) => IsStringToken(t)
    case _ => false
  }

  datatype Tree =
    | Token(text: string, value: Json)
    | ArrayOf(space: string, elements: Elements)
    | ObjectOf(space: string, fields: Fields)

  datatype Elements = NoElements | Element(before: string, value: Tree, after: string, next: Elements)

  datatype Fields =
    | NoFields
    | Field(before: string, name: string, key: string, beforeColon: string, afterColon: string, value: Tree, after: string, next: Fields)

  ghost predicate IsTree(t: Tree) {
    match t
    case Token(text, value) => IsToken(text, value)
    case ArrayOf(space, elements) => AllBlank(space) && IsElements(elements)
    case ObjectOf(space, fields) => AllBlank(space) && IsFields(fields)
  }

  ghost predicate IsElements(e: Elements) {
    match e
    case NoElements => true
    case Element(before, value, after, next) => AllBlank(before) && IsTree(value) && AllBlank(after) && IsElements(next)
  }

  ghost predicate IsFields(f: Fields) {
    match f
    case NoFields => true
    case Field(before, name, _, beforeColon, afterColon, value, after, next) =>
      && AllBlank(before) && IsStringToken(name) && AllBlank(beforeColon) && AllBlank(afterColon)
      && IsTree(value) && AllBlank(after) && IsFields(next)
  }

  function TextOf(t: Tree): string
    decreases t, 0
  {
    match t
    case Token(text, _) => text
    case ArrayOf(space, elements) => "[" + (space + (ElementsText(elements) + "]"))
    case ObjectOf(space, fields) => "{" + (space + (FieldsText(fields) + "}"))
  }

  function ElementsText(e: Elements): string
    decreases e, 0
  {
    match e
    case NoElements => ""
    case Element(before, value, after, next) => before + (TextOf(value) + (after + MoreElements(next)))
  }

  function MoreElements(e: Elements): string
    decreases e, 1
  {
    if e.NoElements? then "" else "," + ElementsText(e)
  }

  function FieldsText(f: Fields): string
    decreases f, 0
  {
    match f
    case NoFields => ""
    case Field(before, name, _, beforeColon, afterColon, value, after, next) =>
      before + (name + (beforeColon + (":" + (afterColon + (TextOf(value) + (after + MoreFields(next)))))))
  }

  function MoreFields(f: Fields): string
    decreases f, 1
  {
    if f.NoFields? then "" else "," + FieldsText(f)
  }

  /** The value of a tree, from those of its tokens. */
  function ValueOf(t: Tree): Json {
    match t
    case Token(_, value) => value
    case ArrayOf(_, elements) => Array(ItemsOf(elements))
    case ObjectOf(_, fields) => Object(MembersOf(fields))
  }

  function ItemsOf(e: Elements): Items {
    match e
    case NoElements => NoItems
    case Element(_, value, _, next) => Item(ValueOf(value), ItemsOf(next))
  }

  function MembersOf(f: Fields): Members {
    match f
    case NoFields => NoMembers
    case Field(_, _, key, _, _, value, _, next) => Member(key, ValueOf(value), MembersOf(next))
  }

  // ------------------------------------------------------------- slices

  /** The text t stands in s from p to q. */
  ghost predicate Cut(s: string, p: nat, t: string, q: nat) {
    p <= q <= |s| && s[p..q] == t
  }

  lemma Joins(s: string, p: nat, a: string, m: nat, b: string, q: nat)
    requires Cut(s, p, a, m) && Cut(s, m, b, q)
    ensures Cut(s, p, a + b, q)
  {
    assert s[p..m] + s[m..q] == s[p..q];
  }

  lemma One(s: string, p: nat, c: char)
    requires p < |s| && s[p] == c
    ensures Cut(s, p, [c], p + 1)
  {
  }

  /** The white space that is skipped. */
  lemma {:induction false} Skipped(s: string, p: nat) returns (space: string)
    requires p <= |s|
    ensures Cut(s, p, space, SkipBlank(s, p)) && AllBlank(space)
    decreases |s| - p
  {
    if p < |s| && s[p] <= ' ' {
      var rest := Skipped(s, p + 1);
      One(s, p, s[p]);
      Joins(s, p, [s[p]], p + 1, rest, SkipBlank(s, p));
      space := [s[p]] + rest;
    } else {
      space := "";
    }
  }

  lemma SkippedTo(s: string, p: nat, q: nat) returns (space: string)
    requires p < |s| && q == SkipWs(s, p)
    ensures p <= q && Cut(s, p, space, q) && AllBlank(space)
  {
    var all := Skipped(s, p);
    space := s[p..q];
    forall i | 0 <= i < q - p
      ensures space[i] <= ' '
    {
      assert space[i] == s[p..SkipBlank(s, p)][i] == all[i];
    }
  }

  // ------------------------------------------------------------- tokens

  lemma {:induction false} ScanBody(s: string, q: nat)
    requires q <= |s| && Scan(s, q).End?
    ensures IsBody(s[q..Scan(s, q).at])
    decreases |s| - q
  {
    var end := Scan(s, q).at;
    if s[q] == '\\' {
      ScanBody(s, q + 2);
      assert s[q..end][2..] == s[q + 2..end];
    } else if s[q] != '\"' {
      ScanBody(s, q + 1);
      assert s[q..end][1..] == s[q + 1..end];
    }
  }

  lemma StringToken(s: string, p: nat) returns (t: string)
    requires p < |s| && ParseString(s, p).Ok?
    ensures IsStringToken(t) && Cut(s, p, t, ParseString(s, p).next)
  {
    ScanBody(s, p + 1);
    var end := Scan(s, p + 1).at;
    t := s[p..end + 1];
    Inside(s, p, end);
  }

  lemma Inside(s: string, p: nat, end: nat)
    requires p < end < |s|
    ensures s[p..end + 1][1..end - p] == s[p + 1..end]
  {
    var whole, inner := s[p..end + 1], s[p + 1..end];
    forall i | 0 <= i < |inner|
      ensures whole[1..end - p][i] == inner[i]
    {
      assert whole[1..end - p][i] == whole[i + 1] == s[p + 1 + i];
    }
    assert whole[1..end - p] == inner;
  }

  lemma {:induction false} RunOfNumber(s: string, p: nat, limit: nat)
    requires p <= |s|
    ensures forall i :: p <= i < p + RunLength(s, p, limit) ==> IsNumberChar(s[i])
    decreases |s| - p
  {
    if limit > 0 && p < |s| && IsNumberChar(s[p]) {
      RunOfNumber(s, p + 1, limit - 1);
    }
  }

  lemma NumberToken(s: string, p: nat) returns (t: string)
    requires p < |s| && (s[p] == '-' || IsDigit(s[p])) && ParseNumber(s, p).Ok?
    ensures IsNumberToken(t) && Cut(s, p, t, ParseNumber(s, p).next) && ParseNumber(s, p).value.Number?
  {
    RunOfNumber(s, p, MAX_NUMBER_LENGTH);
    var next := ParseNumber(s, p).next;
    assert next <= p + RunLength(s, p, MAX_NUMBER_LENGTH);
    t := s[p..next];
  }

  lemma WordToken(s: string, p: nat, t: string)
    requires At(s, p, t)
    ensures Cut(s, p, t, p + |t|)
  {
  }

  lemma ScalarToken(s: string, p: nat) returns (t: Tree)
    requires p < |s| && ParseScalar(s, p).Some? && ParseScalar(s, p).value.Ok?
    ensures IsTree(t) && t.Token? && t.value == ParseScalar(s, p).value.value
    ensures Cut(s, p, TextOf(t), ParseScalar(s, p).value.next)
  {
    var r := ParseScalar(s, p).value;
    var text;
    if At(s, p, "null") {
      text := "null";
      WordToken(s, p, text);
    } else if At(s, p, "false") {
      text := "false";
      WordToken(s, p, text);
    } else if At(s, p, "true") {
      text := "true";
      WordToken(s, p, text);
    } else if s[p] == '\"' {
      text := StringToken(s, p);
    } else {
      text := NumberToken(s, p);
    }
    t := Token(text, r.value);
  }

  // ------------------------------------------------------ arrays and objects

  /** The tree t is what r was read from, from p on. */
  ghost predicate ReadFrom(s: string, p: nat, t: Tree, r: Parsed<Json>) {
    r.Ok? && IsTree(t) && ValueOf(t) == r.value && Cut(s, p, TextOf(t), r.next)
  }

  /** Whatever is accepted at any place and depth is a tree. */
  lemma {:induction false} Reads(s: string, p: nat, depth: nat, limit: nat) returns (r: Parsed<Json>, t: Tree)
    requires Terminated(s) && p < |s|
    ensures r == ParseValue(s, p, depth, limit) && (r.Ok? ==> ReadFrom(s, p, t, r))
    decreases |s| - p, 2
  {
    r, t := ParseValue(s, p, depth, limit), Token("", Null);
    if ParseScalar(s, p).Some? {
      if r.Ok? {
        t := ScalarToken(s, p);
      }
    } else if depth < limit {
      if s[p] == '[' {
        r, t := ReadsArray(s, p, depth, limit);
      } else if s[p] == '{' {
        r, t := ReadsObject(s, p, depth, limit);
      }
    }
  }

  lemma Bracketed(s: string, p: nat, open: char, space: string, at: nat, body: string, end: nat, close: char)
    requires p < |s| && s[p] == open && Cut(s, p + 1, space, at) && Cut(s, at, body, end) && end < |s| && s[end] == close
    ensures Cut(s, p, [open] + (space + (body + [close])), end + 1)
  {
    One(s, p, open);
    One(s, end, close);
    Joins(s, at, body, end, [close], end + 1);
    Joins(s, p + 1, space, at, body + [close], end + 1);
    Joins(s, p, [open], p + 1, space + (body + [close]), end + 1);
  }

  lemma {:induction false} ReadsArray(s: string, p: nat, depth: nat, limit: nat) returns (r: Parsed<Json>, t: Tree)
    requires Terminated(s) && p < |s| && s[p] == '[' && depth < limit
    ensures r == ParseArray(s, p, depth, limit) && (r.Ok? ==> ReadFrom(s, p, t, r))
    decreases |s| - p, 1
  {
    var empty, start, inner, list;
    r, empty, start, inner, list := ArrayIs(s, p, depth, limit);
    t := Token("", Null);
    var at := SkipWs(s, p + 1);
    var space := SkippedTo(s, p + 1, at);
    if empty {
      Bracketed(s, p, '[', space, at, "", at, ']');
      t := ArrayOf(space, NoElements);
    } else if r.Ok? {
      var e;
      list, e := ReadsItems(s, start, inner, limit);
      Bracketed(s, p, '[', space, at, ElementsText(e), list.next, ']');
      t := ArrayOf(space, e);
    }
  }

  lemma {:induction false} ReadsObject(s: string, p: nat, depth: nat, limit: nat) returns (r: Parsed<Json>, t: Tree)
    requires Terminated(s) && p < |s| && s[p] == '{' && depth < limit
    ensures r == ParseObject(s, p, depth, limit) && (r.Ok? ==> ReadFrom(s, p, t, r))
    decreases |s| - p, 1
  {
    var empty, start, inner, list;
    r, empty, start, inner, list := ObjectIs(s, p, depth, limit);
    t := Token("", Null);
    var at := SkipWs(s, p + 1);
    var space := SkippedTo(s, p + 1, at);
    if empty {
      Bracketed(s, p, '{', space, at, "", at, '}');
      t := ObjectOf(space, NoFields);
    } else if r.Ok? {
      var f;
      list, f := ReadsMembers(s, start, inner, limit);
      Bracketed(s, p, '{', space, at, FieldsText(f), list.next, '}');
      t := ObjectOf(space, f);
    }
  }

  // ------------------------------------------------------- their elements

  lemma {:induction false} ReadsItems(s: string, p: nat, depth: nat, limit: nat) returns (r: Parsed<Items>, e: Elements)
    requires Terminated(s) && p + 1 < |s|
    ensures r == ParseItems(s, p, depth, limit)
    ensures r.Ok? ==> e.Element? && IsElements(e) && ItemsOf(e) == r.value && Cut(s, p + 1, ElementsText(e), r.next)
    decreases |s| - p, 0
  {
    var start := SkipWs(s, p + 1);
    var before := SkippedTo(s, p + 1, start);
    var v, t := Reads(s, start, depth, limit);
    e := NoElements;
    if v.Fail? {
      r := ParseItems(s, p, depth, limit);
    } else {
      var q, rest, more;
      r, q, rest := ItemsAre(s, p, depth, limit, v.value, v.next);
      var after := SkippedTo(s, v.next, q);
      more := NoElements;
      if s[q] == ',' {
        rest, more := ReadsItems(s, q, depth, limit);
      }
      if r.Ok? {
        e := WholeElement(s, p + 1, before, start, t, v, after, q, more, rest, r);
      }
    }
  }

  lemma WholeElement(s: string, p: nat, before: string, start: nat, t: Tree, v: Parsed<Json>, after: string, q: nat, more: Elements,
                     rest: Parsed<Items>, r: Parsed<Items>) returns (e: Elements)
    requires AllBlank(before) && Cut(s, p, before, start) && ReadFrom(s, start, t, v)
    requires q < |s| && AllBlank(after) && Cut(s, v.next, after, q)
    requires if s[q] == ',' then
               && rest.Ok? && more.Element? && IsElements(more) && ItemsOf(more) == rest.value
               && Cut(s, q + 1, ElementsText(more), rest.next) && r == Ok(Item(v.value, rest.value), rest.next)
             else more == NoElements && r == Ok(Item(v.value, NoItems), q)
    ensures e == Element(before, t, after, more) && IsElements(e) && Cut(s, p, ElementsText(e), r.next) && ItemsOf(e) == r.value
  {
    e := Element(before, t, after, more);
    if s[q] == ',' {
      One(s, q, ',');
      Joins(s, q, ",", q + 1, ElementsText(more), r.next);
    }
    Joins(s, v.next, after, q, MoreElements(more), r.next);
    Joins(s, start, TextOf(t), v.next, after + MoreElements(more), r.next);
    Joins(s, p, before, start, TextOf(t) + (after + MoreElements(more)), r.next);
  }

  /** A member's name and colon. */
  lemma NameReads(s: string, p: nat) returns (name: string, afterName: nat, beforeColon: string, colon: nat, afterColon: string)
    requires Terminated(s) && p < |s| && ParseName(s, p).Ok?
    ensures afterName <= colon < |s| && ParseName(s, p).next < |s|
    ensures IsStringToken(name) && Cut(s, p, name, afterName)
    ensures AllBlank(beforeColon) && Cut(s, afterName, beforeColon, colon) && s[colon] == ':'
    ensures AllBlank(afterColon) && Cut(s, colon + 1, afterColon, ParseName(s, p).next)
  {
    name := StringToken(s, p);
    afterName := ParseString(s, p).next;
    assert s[p..afterName][|name| - 1] == s[afterName - 1] == '\"';
    colon := SkipWs(s, afterName);
    beforeColon := SkippedTo(s, afterName, colon);
    afterColon := SkippedTo(s, colon + 1, SkipWs(s, colon + 1));
  }

  lemma {:induction false} ReadsMembers(s: string, p: nat, depth: nat, limit: nat) returns (r: Parsed<Members>, f: Fields)
    requires Terminated(s) && p + 1 < |s|
    ensures r == ParseMembers(s, p, depth, limit)
    ensures r.Ok? ==> f.Field? && IsFields(f) && MembersOf(f) == r.value && Cut(s, p + 1, FieldsText(f), r.next)
    decreases |s| - p, 0
  {
    f := NoFields;
    var name := ParseName(s, SkipWs(s, p + 1));
    if name.Fail? {
      r := NoMember(s, p, depth, limit, name);
    } else {
      var v, t := Reads(s, name.next, depth, limit);
      if v.Fail? {
        r := NoMember(s, p, depth, limit, name);
      } else {
        var q := SkipWs(s, v.next);
        var rest, more := Fail(0), NoFields;
        if s[q] == ',' {
          rest, more := ReadsMembers(s, q, depth, limit);
        }
        r, f := MemberReads(s, p, depth, limit, name, v, t, q, rest, more);
      }
    }
  }

  lemma NoMember(s: string, p: nat, depth: nat, limit: nat, name: Parsed<string>) returns (r: Parsed<Members>)
    requires Terminated(s) && p + 1 < |s| && name == ParseName(s, SkipWs(s, p + 1))
    requires name.Fail? || ParseValue(s, name.next, depth, limit).Fail?
    ensures r == ParseMembers(s, p, depth, limit) && r.Fail?
  {
    r := ParseMembers(s, p, depth, limit);
  }

  /** A member and those behind it. */
  lemma MemberReads(s: string, p: nat, depth: nat, limit: nat, name: Parsed<string>, v: Parsed<Json>, t: Tree, q: nat,
                    rest: Parsed<Members>, more: Fields) returns (r: Parsed<Members>, f: Fields)
    requires Terminated(s) && p + 1 < |s| && name == ParseName(s, SkipWs(s, p + 1)) && name.Ok?
    requires v == ParseValue(s, name.next, depth, limit) && ReadFrom(s, name.next, t, v) && q == SkipWs(s, v.next)
    requires if s[q] == ',' then
               && q + 1 < |s| && rest == ParseMembers(s, q, depth, limit)
               && (rest.Ok? ==> more.Field? && IsFields(more) && MembersOf(more) == rest.value && Cut(s, q + 1, FieldsText(more), rest.next))
             else more == NoFields
    ensures r == ParseMembers(s, p, depth, limit)
    ensures r.Ok? ==> f.Field? && IsFields(f) && MembersOf(f) == r.value && Cut(s, p + 1, FieldsText(f), r.next)
  {
    var at, list;
    r, at, list := MembersAre(s, p, depth, limit, name.value, name.next, v.value, v.next);
    f := NoFields;
    if r.Ok? {
      f := WholeField(s, p + 1, SkipWs(s, p + 1), name, t, v, q, more, rest, r);
    }
  }

  lemma WholeField(s: string, p: nat, nameAt: nat, name: Parsed<string>, t: Tree, v: Parsed<Json>, q: nat, more: Fields,
                   rest: Parsed<Members>, r: Parsed<Members>) returns (f: Fields)
    requires Terminated(s) && p < |s| && nameAt == SkipWs(s, p) && name == ParseName(s, nameAt) && name.Ok?
    requires ReadFrom(s, name.next, t, v) && v.next < |s| && q == SkipWs(s, v.next)
    requires if s[q] == ',' then
               && rest.Ok? && more.Field? && IsFields(more) && MembersOf(more) == rest.value
               && Cut(s, q + 1, FieldsText(more), rest.next) && r == Ok(Member(name.value, v.value, rest.value), rest.next)
             else more == NoFields && r == Ok(Member(name.value, v.value, NoMembers), q)
    ensures f.Field? && IsFields(f) && Cut(s, p, FieldsText(f), r.next) && MembersOf(f) == r.value
  {
    var before := SkippedTo(s, p, nameAt);
    var after := SkippedTo(s, v.next, q);
    var text, afterName, beforeColon, colon, afterColon := NameReads(s, nameAt);
    f := Field(before, text, name.value, beforeColon, afterColon, t, after, more);
    if s[q] == ',' {
      One(s, q, ',');
      Joins(s, q, ",", q + 1, FieldsText(more), r.next);
    }
    FieldJoins(s, p, f, nameAt, afterName, colon, name.next, v.next, q, r.next);
  }

  /** The pieces of a member, one behind the other. */
  lemma FieldJoins(s: string, p: nat, f: Fields, nameAt: nat, afterName: nat, colon: nat, valueAt: nat, next: nat, q: nat, end: nat)
    requires f.Field? && Cut(s, p, f.before, nameAt) && Cut(s, nameAt, f.name, afterName)
    requires Cut(s, afterName, f.beforeColon, colon) && colon < |s| && s[colon] == ':' && Cut(s, colon + 1, f.afterColon, valueAt)
    requires Cut(s, valueAt, TextOf(f.value), next) && Cut(s, next, f.after, q) && Cut(s, q, MoreFields(f.next), end)
    ensures Cut(s, p, FieldsText(f), end)
  {
    var last := f.after + MoreFields(f.next);
    var value := TextOf(f.value) + last;
    var behind := ":" + (f.afterColon + value);
    One(s, colon, ':');
    Joins(s, next, f.after, q, MoreFields(f.next), end);
    Joins(s, valueAt, TextOf(f.value), next, last, end);
    Joins(s, colon + 1, f.afterColon, valueAt, value, end);
    Joins(s, colon, ":", colon + 1, f.afterColon + value, end);
    Joins(s, afterName, f.beforeColon, colon, behind, end);
    Joins(s, nameAt, f.name, afterName, f.beforeColon + behind, end);
    Joins(s, p, f.before, nameAt, f.name + (f.beforeColon + behind), end);
  }

  // ---------------------------------------------------------- whole texts

  /**
   Nothing outside the grammar is accepted: a text that is read to its end is a tree of tokens with white space around it,
   nested within the limit, and the value read is that of the tree.
   */
  lemma AcceptedIsTree(text: string, limit: nat) returns (before: string, t: Tree, after: string)
    requires '\0' !in text && Parse(text, true, limit).Ok?
    ensures AllBlank(before) && IsTree(t) && AllBlank(after) && text == before + TextOf(t) + after
    ensures Parse(text, true, limit) == Ok(ValueOf(t), |text|) && Nesting(ValueOf(t)) <= limit
  {
    var s := text + "\0";
    var start := SkipWs(s, 0);
    before := SkippedTo(s, 0, start);
    var r;
    r, t := Reads(s, start, 0, limit);
    var v := NeverBeyondLimit(s, start, 0, limit);
    var q := SkipWs(s, r.next);
    after := SkippedTo(s, r.next, q);
    assert s[q] == '\0';
    assert q == |text|;
    Joins(s, 0, before, start, TextOf(t), r.next);
    Joins(s, 0, before + TextOf(t), r.next, after, q);
    assert s[0..q] == text;
  }

  /** With trailing characters allowed, what is accepted begins with such a tree. */
  lemma AcceptedBeginsWithTree(text: string, limit: nat) returns (before: string, t: Tree)
    requires '\0' !in text && Parse(text, false, limit).Ok?
    ensures var r := Parse(text, false, limit);
            && AllBlank(before) && IsTree(t) && r.next <= |text| && text[..r.next] == before + TextOf(t)
            && r.value == ValueOf(t) && Nesting(r.value) <= limit
  {
    var s := text + "\0";
    var start := SkipWs(s, 0);
    before := SkippedTo(s, 0, start);
    var r;
    r, t := Reads(s, start, 0, limit);
    var v := NeverBeyondLimit(s, start, 0, limit);
    Joins(s, 0, before, start, TextOf(t), r.next);
    assert s[0..r.next] == text[..r.next];
  }
}
