/**
 Minifying keeps the meaning: from every JSON text with comments it takes the white space and the comments between the
 tokens, and nothing else, so the parser reads the value of the text from what is left. The formatted print of a value
 becomes its unformatted print.
 */
module JsonCompact {
  import opened Common
  import opened Json
  import opened JsonStrings
  import opened JsonNumbers
  import opened JsonParser
  import opened JsonGrammar
  import opened JsonReading
  import opened JsonRoundTrip
  import opened JsonMinify

  // ------------------------------------------------------ texts with comments

  ghost predicate IsLineComment(c: string) {
    && |c| >= 3 && c[0] == '/' && c[1] == '/' && c[|c| - 1] == '\n'
    && forall i :: 2 <= i < |c| - 1 ==> c[i] != '\n'
  }

  /** It ends with the first star and slash behind its opening; the two share no star. */
  ghost predicate IsBlockComment(c: string) {
    && |c| >= 4 && c[0] == '/' && c[1] == '*' && c[|c| - 2] == '*' && c[|c| - 1] == '/'
    && forall i :: 1 <= i < |c| - 2 ==> !(c[i] == '*' && c[i + 1] == '/')
  }

  ghost predicate IsComment(c: string) { IsLineComment(c) || IsBlockComment(c) }

  /** White space and comments, one behind the other. */
  datatype Pieces = NoPieces | Blank(c: char, next: Pieces) | Remark(text: string, next: Pieces)

  ghost predicate Joined(g: Pieces, t: string) {
    match g
    case NoPieces => t == ""
    case Blank(c, next) => IsSpace(c) && t != "" && t[0] == c && Joined(next, t[1..])
    case Remark(text, next) => IsComment(text) && |text| <= |t| && t[..|text|] == text && Joined(next, t[|text|..])
  }

  /** What may stand between two tokens. */
  ghost predicate IsGap(t: string) { exists g :: Joined(g, t) }

  /** A last comment may end with the text. */
  ghost predicate IsLastLine(c: string) {
    c != "" ==> |c| >= 2 && c[0] == '/' && c[1] == '/' && forall i :: 2 <= i < |c| ==> c[i] != '\n'
  }

  /** A syntax tree with gaps for its white space. */
  ghost predicate IsCommented(t: Syntax) {
    match t
    case DecimalText(n) => IsNumeral(n)
    case StringText(u) => IsUnits(u)
    case ArrayText(space, elements) => IsGap(space) && IsCommentedElements(elements)
    case ObjectText(space, fields) => IsGap(space) && IsCommentedFields(fields)
    case _ => true
  }

  ghost predicate IsCommentedElements(e: Elements) {
    match e
    case NoElements => true
    case Element(before, value, after, next) => IsGap(before) && IsCommented(value) && IsGap(after) && IsCommentedElements(next)
  }

  ghost predicate IsCommentedFields(f: Fields) {
    match f
    case NoFields => true
    case Field(before, name, beforeColon, afterColon, value, after, next) =>
      && IsGap(before) && IsUnits(name) && IsGap(beforeColon) && IsGap(afterColon)
      && IsCommented(value) && IsGap(after) && IsCommentedFields(next)
  }

  lemma {:induction false} SpaceIsGap(t: string)
    requires AllSpace(t)
    ensures IsGap(t)
    decreases |t|
  {
    if t == "" {
      assert Joined(NoPieces, t);
    } else {
      SpaceIsGap(t[1..]);
      var g :| Joined(g, t[1..]);
      assert Joined(Blank(t[0], g), t);
    }
  }

  /** A JSON text is one without comments. */
  lemma {:induction false} TextIsCommented(t: Syntax)
    requires IsText(t)
    ensures IsCommented(t)
    decreases t
  {
    match t
    case ArrayText(space, elements) =>
      SpaceIsGap(space);
      ElementsAreCommented(elements);
    case ObjectText(space, fields) =>
      SpaceIsGap(space);
      FieldsAreCommented(fields);
    case _ =>
  }

  lemma {:induction false} ElementsAreCommented(e: Elements)
    requires IsElements(e)
    ensures IsCommentedElements(e)
    decreases e
  {
    if e.Element? {
      SpaceIsGap(e.before);
      SpaceIsGap(e.after);
      TextIsCommented(e.value);
      ElementsAreCommented(e.next);
    }
  }

  lemma {:induction false} FieldsAreCommented(f: Fields)
    requires IsFields(f)
    ensures IsCommentedFields(f)
    decreases f
  {
    if f.Field? {
      SpaceIsGap(f.before);
      SpaceIsGap(f.beforeColon);
      SpaceIsGap(f.afterColon);
      SpaceIsGap(f.after);
      TextIsCommented(f.value);
      FieldsAreCommented(f.next);
    }
  }

  // ------------------------------------------------------ without white space

  function Compact(t: Syntax): Syntax {
    match t
    case ArrayText(_, elements) => ArrayText("", CompactElements(elements))
    case ObjectText(_, fields) => ObjectText("", CompactFields(fields))
    case _ => t
  }

  function CompactElements(e: Elements): Elements {
    match e
    case NoElements => NoElements
    case Element(_, value, _, next) => Element("", Compact(value), "", CompactElements(next))
  }

  function CompactFields(f: Fields): Fields {
    match f
    case NoFields => NoFields
    case Field(_, name, _, _, value, _, next) => Field("", name, "", "", Compact(value), "", CompactFields(next))
  }

  lemma {:induction false} CompactMeans(t: Syntax)
    requires IsCommented(t)
    ensures IsText(Compact(t)) && Meaning(Compact(t)) == Meaning(t) && Sound(Compact(t)) == Sound(t)
    decreases t
  {
    match t
    case ArrayText(_, elements) => CompactElementsMean(elements);
    case ObjectText(_, fields) => CompactFieldsMean(fields);
    case _ =>
  }

  lemma {:induction false} CompactElementsMean(e: Elements)
    requires IsCommentedElements(e)
    ensures IsElements(CompactElements(e)) && ElementsMeaning(CompactElements(e)) == ElementsMeaning(e)
    ensures SoundElements(CompactElements(e)) == SoundElements(e)
    decreases e
  {
    if e.Element? {
      CompactMeans(e.value);
      CompactElementsMean(e.next);
    }
  }

  lemma {:induction false} CompactFieldsMean(f: Fields)
    requires IsCommentedFields(f)
    ensures IsFields(CompactFields(f)) && FieldsMeaning(CompactFields(f)) == FieldsMeaning(f)
    ensures SoundFields(CompactFields(f)) == SoundFields(f)
    decreases f
  {
    if f.Field? {
      CompactMeans(f.value);
      CompactFieldsMean(f.next);
    }
  }

  // ------------------------------------------------------ what minifying leaves

  /** The text before q contributes exactly `kept`. */
  ghost predicate Leaves(s: string, p: nat, q: nat, kept: string) {
    p <= q <= |s| && Minified(s, p) == Prefix(kept, Minified(s, q))
  }

  /** The text t, standing at p, is turned into `kept`. */
  ghost predicate Becomes(s: string, p: nat, t: string, kept: string) {
    Leaves(s, p, p + |t|, kept)
  }

  lemma LeavesNothing(s: string, p: nat)
    requires p <= |s|
    ensures Leaves(s, p, p, "") && Becomes(s, p, "", "")
  {
    PrefixNothing("", Minified(s, p));
  }

  lemma Then(s: string, p: nat, a: string, b: string, a': string, b': string)
    requires Becomes(s, p, a, a') && Becomes(s, p + |a|, b, b')
    ensures Becomes(s, p, a + b, a' + b')
  {
    PrefixTwice(a', b', Minified(s, p + |a| + |b|));
  }

  lemma GapLeaves(s: string, p: nat, t: string)
    requires At(s, p, t) && IsGap(t)
    ensures Becomes(s, p, t, "")
  {
    var g :| Joined(g, t);
    PiecesLeave(s, p, g, t);
  }

  lemma {:induction false} PiecesLeave(s: string, p: nat, g: Pieces, t: string)
    requires At(s, p, t) && Joined(g, t)
    ensures Becomes(s, p, t, "")
    decreases g
  {
    match g
    case NoPieces => LeavesNothing(s, p);
    case Blank(c, next) =>
      var rest := t[1..];
      FirstSkipped(s, p, [c], t, rest);
      PiecesLeave(s, p + 1, next, rest);
    case Remark(text, next) =>
      var rest := t[|text|..];
      FirstSkipped(s, p, text, t, rest);
      PiecesLeave(s, p + |text|, next, rest);
  }

  /** A space or a comment in front. */
  lemma FirstSkipped(s: string, p: nat, first: string, t: string, rest: string)
    requires At(s, p, t) && |first| <= |t| && t[..|first|] == first && t[|first|..] == rest
    requires (|first| == 1 && IsSpace(first[0])) || IsComment(first)
    ensures p + |first| <= |s| && At(s, p + |first|, rest) && Minified(s, p) == Minified(s, p + |first|)
  {
    assert t == first + rest;
    AtSplit(s, p, first, rest);
    AtIndex(s, p, first, 0);
    if IsComment(first) {
      CommentSkipped(s, p, first);
    }
  }

  lemma CommentSkipped(s: string, p: nat, c: string)
    requires At(s, p, c) && IsComment(c)
    ensures p + |c| <= |s| && Minified(s, p) == Minified(s, p + |c|)
  {
    AtIndex(s, p, c, 0);
    AtIndex(s, p, c, 1);
    if IsLineComment(c) {
      AtIndex(s, p, c, |c| - 1);
      LineRuns(s, p, c, 1);
    } else {
      BlockRuns(s, p, c, 0);
    }
  }

  /** A line comment is read up to its line break. */
  lemma {:induction false} LineRuns(s: string, p: nat, c: string, k: nat)
    requires At(s, p, c) && IsLineComment(c) && 1 <= k < |c|
    ensures LineEnd(s, p + k) == p + |c| - 1
    decreases |c| - k
  {
    AtIndex(s, p, c, k);
    if k < |c| - 1 {
      LineRuns(s, p, c, k + 1);
    }
  }

  /** A block comment is read up to its end. */
  lemma {:induction false} BlockRuns(s: string, p: nat, c: string, k: nat)
    requires At(s, p, c) && IsBlockComment(c) && k <= |c| - 2
    ensures BlockEnd(s, p + k) == Some(p + |c|)
    decreases |c| - k
  {
    AtIndex(s, p, c, k);
    AtIndex(s, p, c, k + 1);
    if k < |c| - 2 {
      BlockRuns(s, p, c, k + 1);
    }
  }

  /** Behind the last token: a gap, and a comment that the text ends in. */
  lemma EndLeaves(s: string, front: string, after: string, last: string)
    requires s == front + (after + last) && IsGap(after) && IsLastLine(last)
    ensures Leaves(s, |front|, |s|, "")
  {
    var p, q := |front|, |front| + |after|;
    ThreeParts(s, front, after, last);
    GapLeaves(s, p, after);
    LastLeaves(s, q, last);
    PrefixTwice("", "", Minified(s, |s|));
  }

  lemma LastLeaves(s: string, q: nat, last: string)
    requires At(s, q, last) && IsLastLine(last) && q + |last| == |s|
    ensures Leaves(s, q, |s|, "")
  {
    LeavesNothing(s, |s|);
    if last != "" {
      AtIndex(s, q, last, 0);
      AtIndex(s, q, last, 1);
      LastLineRuns(s, q, last, 1);
    }
  }

  lemma {:induction false} LastLineRuns(s: string, p: nat, c: string, k: nat)
    requires At(s, p, c) && c != "" && IsLastLine(c) && p + |c| == |s| && 1 <= k <= |c|
    ensures LineEnd(s, p + k) == |s|
    decreases |c| - k
  {
    if k < |c| {
      AtIndex(s, p, c, k);
      LastLineRuns(s, p, c, k + 1);
    }
  }

  predicate IsPlain(c: char) { !IsSpace(c) && c != '/' && c != '\"' }

  ghost predicate AllPlain(t: string) { forall i :: 0 <= i < |t| ==> IsPlain(t[i]) }

  lemma {:induction false} PlainLeaves(s: string, p: nat, t: string)
    requires At(s, p, t) && AllPlain(t)
    ensures Becomes(s, p, t, t)
    decreases |t|
  {
    if t == "" {
      LeavesNothing(s, p);
    } else {
      assert t == [t[0]] + t[1..];
      AtSplit(s, p, [t[0]], t[1..]);
      AtIndex(s, p, t, 0);
      PlainLeaves(s, p + 1, t[1..]);
      PrefixTwice([t[0]], t[1..], Minified(s, p + |t|));
    }
  }

  lemma CharLeaves(s: string, p: nat, c: char)
    requires At(s, p, [c]) && IsPlain(c)
    ensures Becomes(s, p, [c], [c])
  {
    PlainLeaves(s, p, [c]);
  }

  /** Inside a string nothing is taken away: the span ends at the closing quote, whatever is escaped. */
  lemma {:induction false} UnitsEnd(s: string, p: nat, u: Units, end: nat)
    requires IsUnits(u) && Stands(s, p, UnitsText(u), end) && s[end] == '\"'
    ensures StringEnd(s, p) == Some(end + 1)
    decreases u
  {
    match u
    case NoUnits =>
    case Verbatim(c, next) =>
      AtSplit(s, p, [c], UnitsText(next));
      AtIndex(s, p, [c], 0);
      UnitsEnd(s, p + 1, next, end);
    case Short(c, next) =>
      AtSplit(s, p, ['\\', c], UnitsText(next));
      AtIndex(s, p, ['\\', c], 0);
      UnitsEnd(s, p + 2, next, end);
    case Hex(digits, next) =>
      HexAt(s, p, digits, next);
      UnitsEnd(s, p + 6, next, end);
      assert StringEnd(s, p + 2) == StringEnd(s, p + 3) == StringEnd(s, p + 4) == StringEnd(s, p + 5) == StringEnd(s, p + 6);
  }

  lemma QuoteLeaves(s: string, p: nat, u: Units)
    requires IsUnits(u) && At(s, p, Quoted(u))
    ensures Becomes(s, p, Quoted(u), Quoted(u))
  {
    var end := p + 1 + |UnitsText(u)|;
    AtSplit3(s, p, "\"", UnitsText(u), "\"");
    AtIndex(s, p, "\"", 0);
    AtIndex(s, end, "\"", 0);
    UnitsEnd(s, p + 1, u, end);
    AtSlice(s, p, Quoted(u));
  }

  lemma NumeralPlain(n: Numeral)
    requires IsNumeral(n)
    ensures AllPlain(NumeralText(n))
  {
    NumeralChars(n);
    forall i | 0 <= i < |NumeralText(n)|
      ensures IsPlain(NumeralText(n)[i])
    {
      assert IsNumberChar(NumeralText(n)[i]);
    }
  }

  /** Wherever a text with comments stands, minifying takes its white space and its comments and nothing else. */
  lemma {:induction false} TextLeaves(s: string, p: nat, t: Syntax)
    requires IsCommented(t) && At(s, p, TextOf(t))
    ensures Becomes(s, p, TextOf(t), TextOf(Compact(t)))
    decreases t
  {
    match t
    case DecimalText(n) =>
      NumeralPlain(n);
      PlainLeaves(s, p, TextOf(t));
    case StringText(u) => QuoteLeaves(s, p, u);
    case ArrayText(space, elements) =>
      var body, body' := ElementsText(elements), ElementsText(CompactElements(elements));
      var at := BracketStep(s, p, '[', space, body, ']');
      ElementsLeave(s, at, elements);
      BracketsLeave(s, p, '[', space, body, body', ']');
    case ObjectText(space, fields) =>
      var body, body' := FieldsText(fields), FieldsText(CompactFields(fields));
      var at := BracketStep(s, p, '{', space, body, '}');
      FieldsLeave(s, at, fields);
      BracketsLeave(s, p, '{', space, body, body', '}');
    case _ => PlainLeaves(s, p, TextOf(t));
  }

  lemma BracketStep(s: string, p: nat, open: char, space: string, body: string, close: char) returns (at: nat)
    requires At(s, p, [open] + (space + (body + [close])))
    ensures at == p + 1 + |space| && At(s, p, [open]) && At(s, p + 1, space) && At(s, at, body) && At(s, at + |body|, [close])
  {
    AtSplit(s, p, [open], space + (body + [close]));
    AtSplit3(s, p + 1, space, body, [close]);
    at := p + 1 + |space|;
  }

  lemma BracketsLeave(s: string, p: nat, open: char, space: string, body: string, body': string, close: char)
    requires At(s, p, [open] + (space + (body + [close]))) && IsPlain(open) && IsPlain(close)
    requires IsGap(space) && Becomes(s, p + 1 + |space|, body, body')
    ensures Becomes(s, p, [open] + (space + (body + [close])), [open] + ("" + (body' + [close])))
  {
    var at := BracketStep(s, p, open, space, body, close);
    CharLeaves(s, p, open);
    GapLeaves(s, p + 1, space);
    CharLeaves(s, at + |body|, close);
    Then(s, at, body, [close], body', [close]);
    Then(s, p + 1, space, body + [close], "", body' + [close]);
    Then(s, p, [open], space + (body + [close]), [open], "" + (body' + [close]));
  }

  /** The gaps around a token. */
  lemma PaddingLeaves(s: string, p: nat, before: string, t: string, after: string, rest: string)
    requires At(s, p, before + (t + (after + rest))) && IsGap(before) && IsGap(after)
    ensures Becomes(s, p, before, "") && Becomes(s, p + |before| + |t|, after, "")
    ensures At(s, p + |before|, t) && At(s, p + |before| + |t| + |after|, rest)
  {
    AtSplit3(s, p, before, t, after + rest);
    AtSplit(s, p + |before| + |t|, after, rest);
    GapLeaves(s, p, before);
    GapLeaves(s, p + |before| + |t|, after);
  }

  /** A token with gaps around it, and what follows. */
  lemma PaddedLeaves(s: string, p: nat, before: string, t: string, after: string, rest: string, t': string, rest': string)
    requires At(s, p, before + (t + (after + rest))) && Becomes(s, p, before, "") && Becomes(s, p + |before| + |t|, after, "")
    requires Becomes(s, p + |before|, t, t') && Becomes(s, p + |before| + |t| + |after|, rest, rest')
    ensures Becomes(s, p, before + (t + (after + rest)), "" + (t' + ("" + rest')))
  {
    AtSplit3(s, p, before, t, after + rest);
    var start, next := p + |before|, p + |before| + |t|;
    AtSplit(s, next, after, rest);
    Then(s, next, after, rest, "", rest');
    Then(s, start, t, after + rest, t', "" + rest');
    Then(s, p, before, t + (after + rest), "", t' + ("" + rest'));
  }

  lemma {:induction false} ElementsLeave(s: string, p: nat, e: Elements)
    requires IsCommentedElements(e) && At(s, p, ElementsText(e))
    ensures Becomes(s, p, ElementsText(e), ElementsText(CompactElements(e)))
    decreases e, 0
  {
    if e.NoElements? {
      LeavesNothing(s, p);
    } else {
      var before, text, after, more := e.before, TextOf(e.value), e.after, MoreElements(e.next);
      var start, end := p + |before|, p + |before| + |text| + |after|;
      var text', more' := TextOf(Compact(e.value)), MoreElements(CompactElements(e.next));
      PaddingLeaves(s, p, before, text, after, more);
      TextLeaves(s, start, e.value);
      MoreElementsLeave(s, end, e.next);
      PaddedLeaves(s, p, before, text, after, more, text', more');
    }
  }

  lemma {:induction false} MoreElementsLeave(s: string, p: nat, e: Elements)
    requires IsCommentedElements(e) && At(s, p, MoreElements(e))
    ensures Becomes(s, p, MoreElements(e), MoreElements(CompactElements(e)))
    decreases e, 1
  {
    if e.NoElements? {
      LeavesNothing(s, p);
    } else {
      AtSplit(s, p, ",", ElementsText(e));
      CharLeaves(s, p, ',');
      ElementsLeave(s, p + 1, e);
      Then(s, p, ",", ElementsText(e), ",", ElementsText(CompactElements(e)));
    }
  }

  lemma {:induction false} FieldsLeave(s: string, p: nat, f: Fields)
    requires IsCommentedFields(f) && At(s, p, FieldsText(f))
    ensures Becomes(s, p, FieldsText(f), FieldsText(CompactFields(f)))
    decreases f, 1
  {
    if f.NoFields? {
      LeavesNothing(s, p);
    } else {
      var name, tail := Quoted(f.name), FieldTail(f);
      PaddingLeaves(s, p, f.before, name, f.beforeColon, tail);
      QuoteLeaves(s, p + |f.before|, f.name);
      TailLeaves(s, p + |f.before| + |name| + |f.beforeColon|, f);
      PaddedLeaves(s, p, f.before, name, f.beforeColon, tail, name, FieldTail(CompactFields(f)));
    }
  }

  /** A member from its colon on, with the members behind it. */
  function FieldTail(f: Fields): string
    requires f.Field?
  {
    ":" + (f.afterColon + (TextOf(f.value) + (f.after + MoreFields(f.next))))
  }

  lemma {:induction false} TailLeaves(s: string, p: nat, f: Fields)
    requires IsCommentedFields(f) && f.Field? && At(s, p, FieldTail(f))
    ensures Becomes(s, p, FieldTail(f), FieldTail(CompactFields(f)))
    decreases f, 0
  {
    var space, text, after, more := f.afterColon, TextOf(f.value), f.after, MoreFields(f.next);
    var at, end := p + 1 + |space|, p + 1 + |space| + |text| + |after|;
    var text', more' := TextOf(Compact(f.value)), MoreFields(CompactFields(f.next));
    CompactTail(f);
    ColonPadding(s, p, space, text, after, more);
    TextLeaves(s, at, f.value);
    MoreFieldsLeave(s, end, f.next);
    ColonLeaves(s, p, space, text, after, more, text', more');
  }

  lemma CompactTail(f: Fields)
    requires f.Field?
    ensures FieldTail(CompactFields(f)) == ":" + ("" + (TextOf(Compact(f.value)) + ("" + MoreFields(CompactFields(f.next)))))
  {
  }

  lemma ColonPadding(s: string, p: nat, space: string, text: string, after: string, more: string)
    requires At(s, p, ":" + (space + (text + (after + more)))) && IsGap(space) && IsGap(after)
    ensures At(s, p, ":") && At(s, p + 1, space + (text + (after + more)))
    ensures Becomes(s, p + 1, space, "") && Becomes(s, p + 1 + |space| + |text|, after, "")
    ensures At(s, p + 1 + |space|, text) && At(s, p + 1 + |space| + |text| + |after|, more)
  {
    AtSplit(s, p, ":", space + (text + (after + more)));
    PaddingLeaves(s, p + 1, space, text, after, more);
  }

  lemma ColonLeaves(s: string, p: nat, space: string, text: string, after: string, more: string, text': string, more': string)
    requires At(s, p, ":") && At(s, p + 1, space + (text + (after + more)))
    requires Becomes(s, p + 1, space, "") && Becomes(s, p + 1 + |space| + |text|, after, "")
    requires Becomes(s, p + 1 + |space|, text, text') && Becomes(s, p + 1 + |space| + |text| + |after|, more, more')
    ensures Becomes(s, p, ":" + (space + (text + (after + more))), ":" + ("" + (text' + ("" + more'))))
  {
    CharLeaves(s, p, ':');
    PaddedLeaves(s, p + 1, space, text, after, more, text', more');
    Then(s, p, ":", space + (text + (after + more)), ":", "" + (text' + ("" + more')));
  }

  lemma {:induction false} MoreFieldsLeave(s: string, p: nat, f: Fields)
    requires IsCommentedFields(f) && At(s, p, MoreFields(f))
    ensures Becomes(s, p, MoreFields(f), MoreFields(CompactFields(f)))
    decreases f, 2
  {
    if f.NoFields? {
      LeavesNothing(s, p);
    } else {
      AtSplit(s, p, ",", FieldsText(f));
      CharLeaves(s, p, ',');
      FieldsLeave(s, p + 1, f);
      Then(s, p, ",", FieldsText(f), ",", FieldsText(CompactFields(f)));
    }
  }

  // ------------------------------------------------------ the meaning is kept

  /** Minifying a text with comments gives its text without white space and comments. */
  lemma MinifyCompacts(before: string, t: Syntax, after: string, last: string)
    requires IsGap(before) && IsCommented(t) && IsGap(after) && IsLastLine(last)
    ensures Minified(before + (TextOf(t) + (after + last)), 0) == Some(TextOf(Compact(t)))
  {
    CompactsAs(before + (TextOf(t) + (after + last)), before, t, TextOf(t), after, last, TextOf(Compact(t)));
  }

  /** A text, known by its parts. */
  lemma CompactsAs(s: string, before: string, t: Syntax, text: string, after: string, last: string, kept: string)
    requires IsGap(before) && IsCommented(t) && IsGap(after) && IsLastLine(last) && text == TextOf(t) && kept == TextOf(Compact(t))
    requires s == before + (text + (after + last))
    ensures Minified(s, 0) == Some(kept)
  {
    var rest := after + last;
    BeforeLeaves(s, before, text + rest);
    WholeLeaves(s, before, t, text, rest, kept);
    Assoc(before, text, rest);
    EndLeaves(s, before + text, after, last);
    AllLeaves(s, |before|, |before| + |text|, kept);
  }

  lemma BeforeLeaves(s: string, before: string, rest: string)
    requires s == before + rest && IsGap(before)
    ensures Leaves(s, 0, |before|, "")
  {
    AtSplit(s, 0, before, rest);
    GapLeaves(s, 0, before);
  }

  lemma WholeLeaves(s: string, before: string, t: Syntax, text: string, rest: string, kept: string)
    requires s == before + (text + rest) && IsCommented(t) && text == TextOf(t) && kept == TextOf(Compact(t))
    ensures Leaves(s, |before|, |before| + |text|, kept)
  {
    ThreeParts(s, before, text, rest);
    TextLeaves(s, |before|, t);
  }

  lemma ThreeParts(s: string, a: string, b: string, c: string)
    requires s == a + (b + c)
    ensures At(s, 0, a) && At(s, |a|, b) && At(s, |a| + |b|, c) && |s| == |a| + |b| + |c|
  {
    AtSplit3(s, 0, a, b, c);
  }

  lemma AllLeaves(s: string, start: nat, end: nat, kept: string)
    requires Leaves(s, 0, start, "") && Leaves(s, start, end, kept) && Leaves(s, end, |s|, "")
    ensures Minified(s, 0) == Some(kept)
  {
    PrefixNothing("", Some(""));
    PrefixNothing(kept, None);
    PrefixNothing("", Some(kept));
  }

  /** A text with comments, once it is minified, is read as the value it denotes, up to the end, or refused. */
  lemma MinifiedIsRead(before: string, t: Syntax, after: string, last: string, limit: nat)
    requires IsGap(before) && IsCommented(t) && IsGap(after) && IsLastLine(last)
    ensures var kept := Minified(before + (TextOf(t) + (after + last)), 0);
            && kept.Some? && '\0' !in kept.value
            && var r := Parse(kept.value, true, limit);
               if Acceptable(t, limit) then r == Ok(Held(Meaning(t)), |kept.value|) else r.Fail?
  {
    MinifyCompacts(before, t, after, last);
    CompactMeans(t);
    assert "" + (TextOf(Compact(t)) + "") == TextOf(Compact(t));
    TextDecides("", Compact(t), "", true, limit);
  }

  /**
   Whatever JSON text is minified, the parser then decides as before: it reads the same value, up to the end, or it
   refuses as it refused the text itself.
   */
  lemma MinifyKeepsMeaning(before: string, t: Syntax, after: string, limit: nat)
    requires AllSpace(before) && IsText(t) && AllSpace(after)
    ensures '\0' !in before + (TextOf(t) + after)
    ensures var text := before + (TextOf(t) + after); var kept := Minified(text, 0);
            && kept.Some? && '\0' !in kept.value
            && var r, r' := Parse(text, true, limit), Parse(kept.value, true, limit);
               if r.Ok? then r' == Ok(r.value, |kept.value|) else r'.Fail?
  {
    SpaceIsGap(before);
    SpaceIsGap(after);
    TextIsCommented(t);
    assert after + "" == after;
    MinifiedIsRead(before, t, after, "", limit);
    TextDecides(before, t, after, true, limit);
  }

  // ------------------------------------------------------ the formatted print

  lemma {:induction false} CompactLayout(v: Json, d: nat)
    ensures Compact(Layout(v, true, d)) == Layout(v, false, d)
    decreases v
  {
    match v
    case Array(items) => CompactItems(items, d + 1, true);
    case Object(members) => CompactMembers(members, d);
    case _ =>
  }

  lemma {:induction false} CompactItems(items: Items, d: nat, first: bool)
    ensures CompactElements(LayoutItems(items, true, d, first)) == LayoutItems(items, false, d, first)
    decreases items
  {
    if items.Item? {
      CompactLayout(items.value, d);
      CompactItems(items.next, d, false);
    }
  }

  lemma {:induction false} CompactMembers(members: Members, d: nat)
    ensures CompactFields(LayoutMembers(members, true, d)) == LayoutMembers(members, false, d)
    decreases members
  {
    if members.Member? {
      CompactLayout(members.value, d + 1);
      CompactMembers(members.next, d);
    }
  }

  /** Minifying agrees with the compact printer, for every value. */
  lemma MinifyFormatted(v: Json)
    ensures Minified(Render(v, true, 0), 0) == Some(Render(v, false, 0))
  {
    LayoutIsText(v, true, 0);
    LayoutPrint(v, true, 0);
    LayoutPrint(v, false, 0);
    CompactLayout(v, 0);
    assert "" + (Render(v, true, 0) + "") == Render(v, true, 0);
    TextIsCommented(Layout(v, true, 0));
    SpaceIsGap("");
    assert Render(v, true, 0) + ("" + "") == Render(v, true, 0);
    MinifyCompacts("", Layout(v, true, 0), "", "");
  }
}
