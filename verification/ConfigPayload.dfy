/**
 The configuration payload: KEY=value lines, applied to the fields one after the other.
 */
module ConfigPayload {
  import opened Common

  datatype Kind = TextKind(size: nat) | IntKind

  datatype Field = Text(s: string) | Num(n: int)

  datatype Known = Known(key: string, kind: Kind)

  /** kFields: the keys that are known, with the size of the field. */
  function KnownKeys(): seq<Known> {
    [Known("NODE_ID", TextKind(64)),
     Known("CTRL_HOST", TextKind(128)), Known("CTRL_PORT", IntKind), Known("CTRL_SCHEME", TextKind(8)),
     Known("CTRL_TOKEN", TextKind(128)),
     Known("EDGE_HOST", TextKind(128)), Known("EDGE_PORT", IntKind),
     Known("RELAY_HOST", TextKind(128)), Known("RELAY_PORT", IntKind), Known("RELAY_USER", TextKind(64)),
     Known("RELAY_PASS", TextKind(64)),
     Known("SRC_HOST", TextKind(64)), Known("SRC_PORT", IntKind), Known("SRC_PATH", TextKind(256)),
     Known("SRC_AUTH", TextKind(128)),
     Known("LATENCY_MS", IntKind), Known("VERBOSE", IntKind)]
  }

  function Lookup(table: seq<Known>, key: string): Option<Kind>
    decreases |table|, |key|
  {
    if table == [] then None
    else if table[0].key == key then Some(table[0].kind)
    else Lookup(table[1..], key)
  }

  function KindOf(key: string): Option<Kind> {
    Lookup(KnownKeys(), key)
  }

  predicate IsBreak(c: char) { c == '\n' || c == '\r' }

  predicate IsSpace(c: char) { c == ' ' || 9 as char <= c <= 13 as char }

  /** The part of a text in front of the first c, all of it if there is none. */
  function Before(s: string, c: char): string {
    if s == "" || s[0] == c then "" else [s[0]] + Before(s[1..], c)
  }

  function TrimLeft(s: string): (r: string)
    ensures |r| <= |s|
  {
    if s != "" && IsSpace(s[0]) then TrimLeft(s[1..]) else s
  }

  function TrimRight(s: string): string {
    if s != "" && IsSpace(s[|s| - 1]) then TrimRight(s[..|s| - 1]) else s
  }

  function Trim(s: string): string {
    TrimRight(TrimLeft(Before(s, '#')))
  }

  function DigitsPrefix(s: string, acc: nat): int {
    if s != "" && '0' <= s[0] <= '9' then DigitsPrefix(s[1..], acc * 10 + (s[0] as int - '0' as int)) else acc
  }

  /** atoi, where it does not overflow. */
  function Atoi(s: string): int {
    var t := TrimLeft(s);
    if t != "" && t[0] == '-' then -DigitsPrefix(t[1..], 0)
    else if t != "" && t[0] == '+' then DigitsPrefix(t[1..], 0)
    else DigitsPrefix(t, 0)
  }

  function Converted(kind: Kind, value: string): Field {
    match kind
    case TextKind(size) => Text(if |value| < size then value else value[..if size > 0 then size - 1 else 0])
    case IntKind => Num(Atoi(value))
  }

  datatype Assignment = Assignment(key: string, field: Field)

  /** A key and its value as text. */
  datatype Setting = Setting(key: string, value: string)

  /** A line of at most 1023 characters, as a C string: key and value around the first '='. */
  function SplitLine(line: string): Option<Setting> {
    var p := Trim(CStr(if |line| >= 1024 then line[..1023] else line));
    if p == "" || '=' !in p then None
    else
      var left := Before(p, '=');
      Some(Setting(Trim(left), Trim(if |left| < |p| then p[|left| + 1..] else "")))
  }

  /** What a setting assigns, if its key is known. */
  function Assigned(c: Setting): Option<Assignment> {
    match KindOf(c.key)
    case None => None
    case Some(kind) => Some(Assignment(c.key, Converted(kind, c.value)))
  }

  function ReadLine(line: string): Option<Assignment> {
    match SplitLine(line)
    case None => None
    case Some(c) => Assigned(c)
  }

  function LineEnd(payload: string, i: nat): (j: nat)
    requires i <= |payload|
    ensures i <= j <= |payload|
    ensures j < |payload| ==> IsBreak(payload[j])
    decreases |payload| - i
  {
    if i < |payload| && !IsBreak(payload[i]) then LineEnd(payload, i + 1) else i
  }

  function BreaksEnd(payload: string, i: nat): (j: nat)
    requires i <= |payload|
    ensures i <= j <= |payload|
    ensures i < |payload| && IsBreak(payload[i]) ==> i < j
    decreases |payload| - i
  {
    if i < |payload| && IsBreak(payload[i]) then BreaksEnd(payload, i + 1) else i
  }

  function NextLine(payload: string, i: nat): (j: nat)
    requires i < |payload|
    ensures i < j <= |payload|
  {
    BreaksEnd(payload, LineEnd(payload, i))
  }

  /** The assignments of a payload from position i on, in order. */
  function Assignments(payload: string, i: nat): seq<Assignment>
    requires i <= |payload|
    decreases |payload| - i
  {
    if i == |payload| then []
    else
      (match ReadLine(payload[i..LineEnd(payload, i)]) case None => [] case Some(a) => [a])
      + Assignments(payload, NextLine(payload, i))
  }

  function ApplyAll(fields: map<string, Field>, assignments: seq<Assignment>): map<string, Field>
    decreases |assignments|
  {
    if assignments == [] then fields
    else ApplyAll(fields[assignments[0].key := assignments[0].field], assignments[1..])
  }

  /** The last assignment to a key is the one that counts; fields not assigned keep their values. */
  lemma {:induction false} LastAssignmentWins(fields: map<string, Field>, assignments: seq<Assignment>, key: string)
    ensures var after := ApplyAll(fields, assignments);
            && (forall k :: LastOf(assignments, key, k) ==> key in after && after[key] == assignments[k].field)
            && (NoneOf(assignments, key) ==> (key in after <==> key in fields) && (key in fields ==> after[key] == fields[key]))
    decreases |assignments|
  {
    if assignments != [] {
      var first, rest := assignments[0], assignments[1..];
      var fields' := fields[first.key := first.field];
      LastAssignmentWins(fields', rest, key);
      forall k | LastOf(assignments, key, k)
        ensures key in ApplyAll(fields, assignments) && ApplyAll(fields, assignments)[key] == assignments[k].field
      {
        if k == 0 {
          assert NoneOf(rest, key);
        } else {
          assert LastOf(rest, key, k - 1);
        }
      }
      if NoneOf(assignments, key) {
        assert first.key != key && NoneOf(rest, key);
      }
    }
  }

  ghost predicate LastOf(assignments: seq<Assignment>, key: string, k: int) {
    && 0 <= k < |assignments| && assignments[k].key == key
    && forall i :: k < i < |assignments| ==> assignments[i].key != key
  }

  ghost predicate NoneOf(assignments: seq<Assignment>, key: string) {
    forall i :: 0 <= i < |assignments| ==> assignments[i].key != key
  }

  lemma {:induction false} LastExists(assignments: seq<Assignment>, key: string)
    requires !NoneOf(assignments, key)
    ensures exists k :: LastOf(assignments, key, k)
    decreases |assignments|
  {
    var front, n := assignments[..|assignments| - 1], |assignments| - 1;
    if assignments[n].key == key {
      assert LastOf(assignments, key, n);
    } else {
      assert !NoneOf(front, key);
      LastExists(front, key);
      var k :| LastOf(front, key, k);
      assert LastOf(assignments, key, k);
    }
  }

  /** Delivering the same payload again changes no field: a retained message may be received any number of times. */
  lemma RedeliveryChangesNothing(fields: map<string, Field>, assignments: seq<Assignment>)
    ensures ApplyAll(ApplyAll(fields, assignments), assignments) == ApplyAll(fields, assignments)
  {
    var once := ApplyAll(fields, assignments);
    var twice := ApplyAll(once, assignments);
    forall key
      ensures (key in twice <==> key in once) && (key in once ==> twice[key] == once[key])
    {
      LastAssignmentWins(fields, assignments, key);
      LastAssignmentWins(once, assignments, key);
      if !NoneOf(assignments, key) {
        LastExists(assignments, key);
      }
    }
  }

  function CtrlHost(fields: map<string, Field>): string {
    if "CTRL_HOST" in fields && fields["CTRL_HOST"].Text? then fields["CTRL_HOST"].s else ""
  }

  // ------------------------------------------------------- what a value means

  predicate IsDigit(c: char) { '0' <= c <= '9' }

  function Power10(n: nat): nat { if n == 0 then 1 else 10 * Power10(n - 1) }

  /** The value of a run of digits, digit by digit: each counts by its place. */
  function Positional(digits: string): int
    requires forall i :: 0 <= i < |digits| ==> IsDigit(digits[i])
  {
    if digits == "" then 0
    else (digits[0] as int - '0' as int) * Power10(|digits| - 1) + Positional(digits[1..])
  }

  lemma Distributes(a: int, d: int, p: int)
    ensures (a * 10 + d) * p == a * (10 * p) + d * p
  {
  }

  lemma {:induction false} PrefixIsPositional(digits: string, tail: string, acc: nat)
    requires forall i :: 0 <= i < |digits| ==> IsDigit(digits[i])
    requires tail == "" || !IsDigit(tail[0])
    ensures DigitsPrefix(digits + tail, acc) == acc * Power10(|digits|) + Positional(digits)
    decreases |digits|
  {
    if digits == "" {
      assert digits + tail == tail;
    } else {
      var d := digits[0] as int - '0' as int;
      assert (digits + tail)[1..] == digits[1..] + tail;
      PrefixIsPositional(digits[1..], tail, acc * 10 + d);
      Distributes(acc, d, Power10(|digits| - 1));
    }
  }

  lemma {:induction false} SpaceTrims(space: string, rest: string)
    requires (forall i :: 0 <= i < |space| ==> IsSpace(space[i])) && (rest == "" || !IsSpace(rest[0]))
    ensures TrimLeft(space + rest) == rest
    decreases |space|
  {
    if space == "" {
      assert space + rest == rest;
    } else {
      assert (space + rest)[1..] == space[1..] + rest;
      SpaceTrims(space[1..], rest);
    }
  }

  lemma SignedReads(text: string, space: string, sign: string, number: string)
    requires (forall i :: 0 <= i < |space| ==> IsSpace(space[i])) && text == space + (sign + number)
    requires sign == "" || sign == "-" || sign == "+"
    requires sign == "" ==> number == "" || !(IsSpace(number[0]) || number[0] == '+' || number[0] == '-')
    ensures Atoi(text) == if sign == "-" then -DigitsPrefix(number, 0) else DigitsPrefix(number, 0)
  {
    var rest := sign + number;
    SpaceTrims(space, rest);
    if sign == "" {
      assert rest == number;
    } else {
      assert rest[0] == sign[0] && rest[1..] == number;
    }
  }

  lemma Regroup(space: string, sign: string, digits: string, tail: string)
    ensures space + sign + digits + tail == space + (sign + (digits + tail))
  {
  }

  /**
   atoi on every text: white space, at most one sign, digits by their places, and whatever follows. (A text without a
   digit in that place is 0.)
   */
  lemma AtoiReads(text: string, space: string, sign: string, digits: string, tail: string)
    requires text == space + sign + digits + tail
    requires forall i :: 0 <= i < |space| ==> IsSpace(space[i])
    requires sign == "" || sign == "-" || sign == "+"
    requires forall i :: 0 <= i < |digits| ==> IsDigit(digits[i])
    requires tail == "" || !IsDigit(tail[0])
    requires digits == "" && sign == "" ==> tail == "" || !(IsSpace(tail[0]) || tail[0] == '+' || tail[0] == '-')
    ensures Atoi(text) == if sign == "-" then -Positional(digits) else Positional(digits)
  {
    Regroup(space, sign, digits, tail);
    NumberReads(text, space, sign, digits, tail, digits + tail);
  }

  lemma NumberReads(text: string, space: string, sign: string, digits: string, tail: string, number: string)
    requires text == space + (sign + number) && number == digits + tail
    requires forall i :: 0 <= i < |space| ==> IsSpace(space[i])
    requires sign == "" || sign == "-" || sign == "+"
    requires forall i :: 0 <= i < |digits| ==> IsDigit(digits[i])
    requires tail == "" || !IsDigit(tail[0])
    requires digits == "" && sign == "" ==> tail == "" || !(IsSpace(tail[0]) || tail[0] == '+' || tail[0] == '-')
    ensures Atoi(text) == if sign == "-" then -Positional(digits) else Positional(digits)
  {
    PrefixIsPositional(digits, tail, 0);
    if number != "" {
      assert number[0] == if digits == "" then tail[0] else digits[0];
    }
    SignedReads(text, space, sign, number);
  }

  /** A sign or none, at least one digit, and something that is not a digit or nothing. */
  ghost predicate IsNumeral(sign: string, digits: string, tail: string) {
    && (sign == "" || sign == "-" || sign == "+")
    && digits != "" && (forall i :: 0 <= i < |digits| ==> IsDigit(digits[i])) && (tail == "" || !IsDigit(tail[0]))
  }

  lemma NumeralReads(value: string, sign: string, digits: string, tail: string)
    requires IsNumeral(sign, digits, tail) && value == sign + digits + tail
    ensures Atoi(value) == if sign == "-" then -Positional(digits) else Positional(digits)
  {
    Assoc(sign, digits, tail);
    assert value == "" + (sign + (digits + tail));
    NumberReads(value, "", sign, digits, tail, digits + tail);
  }

  /** The decimal text of an integer. */
  function NatDecimal(n: nat): (digits: string)
    ensures digits != "" && forall i :: 0 <= i < |digits| ==> IsDigit(digits[i])
  {
    (if n < 10 then "" else NatDecimal(n / 10)) + [('0' as int + n % 10) as char]
  }

  function Decimal(n: int): string { if n < 0 then "-" + NatDecimal(-n) else NatDecimal(n) }

  lemma {:induction false} PositionalAppend(digits: string, c: char)
    requires (forall i :: 0 <= i < |digits| ==> IsDigit(digits[i])) && IsDigit(c)
    ensures forall i :: 0 <= i < |digits + [c]| ==> IsDigit((digits + [c])[i])
    ensures Positional(digits + [c]) == 10 * Positional(digits) + (c as int - '0' as int)
    decreases |digits|
  {
    if digits == "" {
      assert digits + [c] == [c];
      assert [c][1..] == "" && Power10(0) == 1;
    } else {
      var longer, d := digits + [c], digits[0] as int - '0' as int;
      assert longer[1..] == digits[1..] + [c] && longer[0] == digits[0];
      PositionalAppend(digits[1..], c);
      TenTimes(d, Power10(|digits| - 1), Power10(|digits|));
      FirstPlace(longer, d, Power10(|digits|));
    }
  }

  lemma TenTimes(d: int, p: nat, q: nat)
    requires q == 10 * p
    ensures d * q == 10 * (d * p)
  {
  }

  lemma FirstPlace(digits: string, d: int, p: nat)
    requires digits != "" && forall i :: 0 <= i < |digits| ==> IsDigit(digits[i])
    requires d == digits[0] as int - '0' as int && p == Power10(|digits| - 1)
    ensures Positional(digits) == d * p + Positional(digits[1..])
  {
  }

  lemma {:induction false} DecimalMeans(n: nat)
    ensures Positional(NatDecimal(n)) == n
  {
    var c := ('0' as int + n % 10) as char;
    if n < 10 {
      PositionalAppend("", c);
    } else {
      DecimalMeans(n / 10);
      PositionalAppend(NatDecimal(n / 10), c);
    }
  }

  /** Every integer is read back from its decimal text, whatever follows it. */
  lemma DecimalReads(n: int, tail: string)
    requires tail == "" || !IsDigit(tail[0])
    ensures Atoi(Decimal(n) + tail) == n
  {
    var magnitude := if n < 0 then -n else n;
    var sign, digits := if n < 0 then "-" else "", NatDecimal(magnitude);
    var text := Decimal(n) + tail;
    assert text == sign + digits + tail;
    DecimalMeans(magnitude);
    NumeralReads(text, sign, digits, tail);
  }

  // ------------------------------------------------------------- round trip

  /** A setting that survives comment cutting and trimming. */
  ghost predicate Publishable(c: Setting) {
    CleanText(c.key) && c.key != "" && '=' !in c.key && CleanText(c.value)
  }

  ghost predicate CleanText(s: string) {
    Tight(s) && Plain(s) && '#' !in s
  }

  /** Space, tab and the four line and page characters behind it, as in section 7.4.1.10 of C11. */
  predicate IsWhite(c: char) { c as int in {9, 10, 11, 12, 13, 32} }

  predicate Tight(s: string) {
    s != "" ==> !IsWhite(s[0]) && !IsWhite(s[|s| - 1])
  }

  /** Neither a NUL nor a line break. */
  ghost predicate Plain(s: string) {
    forall i :: 0 <= i < |s| ==> s[i] != '\0' && s[i] != '\n' && s[i] != '\r'
  }

  /** White space within a line. */
  ghost predicate Blank(s: string) {
    forall i :: 0 <= i < |s| ==> IsWhite(s[i]) && s[i] != '\n' && s[i] != '\r'
  }

  ghost predicate Comment(s: string) {
    (s != "" ==> s[0] == '#') && forall i :: 0 <= i < |s| ==> s[i] != '\n' && s[i] != '\r'
  }

  ghost predicate Breaks(s: string) {
    forall i :: 0 <= i < |s| ==> s[i] == '\n' || s[i] == '\r'
  }

  /**
   A line as somebody may write it: a setting with white space around key and value, or a text without '='; then a comment,
   and the line breaks.
   */
  datatype Line =
    | Entry(c: Setting, indent: string, before: string, behind: string, trail: string, comment: string, ends: string)
    | Idle(text: string, comment: string, ends: string)

  /** Key and value lie within the first 1023 characters; what follows may be of any length. */
  ghost predicate Written(l: Line) {
    && Comment(l.comment) && Breaks(l.ends)
    && match l
       case Entry(c, indent, before, behind, trail, _, _) =>
         && Publishable(c) && Blank(indent) && Blank(before) && Blank(behind) && Blank(trail) && |Shown(l)| < 1024
       case Idle(text, comment, _) => Plain(text) && '#' !in text && '=' !in text && text + comment != ""
  }

  function Shown(l: Line): string
    requires l.Entry?
  {
    l.indent + l.c.key + l.before + "=" + l.behind + l.c.value
  }

  function LineText(l: Line): string {
    if l.Entry? then Shown(l) + (l.trail + l.comment) else l.text + l.comment
  }

  function PayloadText(lines: seq<Line>): string {
    if lines == [] then "" else LineText(lines[0]) + lines[0].ends + PayloadText(lines[1..])
  }

  function Settings(lines: seq<Line>): seq<Setting> {
    if lines == [] then [] else (if lines[0].Entry? then [lines[0].c] else []) + Settings(lines[1..])
  }

  /** Settings of unknown keys are skipped. */
  function Wanted(settings: seq<Setting>): seq<Assignment> {
    if settings == [] then []
    else (match Assigned(settings[0]) case None => [] case Some(a) => [a]) + Wanted(settings[1..])
  }

  lemma {:induction false} BeforeAbsent(s: string, c: char)
    requires c !in s
    ensures Before(s, c) == s
  {
    if s != "" {
      BeforeAbsent(s[1..], c);
    }
  }

  lemma {:induction false} BeforeFound(a: string, c: char, b: string)
    requires c !in a && (b == "" || b[0] == c)
    ensures Before(a + b, c) == a
    decreases |a|
  {
    if a == "" {
      assert a + b == b;
    } else {
      assert (a + b)[1..] == a[1..] + b;
      BeforeFound(a[1..], c, b);
    }
  }

  lemma {:induction false} CStrFound(a: string, b: string)
    requires '\0' !in a
    ensures CStr(a + b) == a + CStr(b)
    decreases |a|
  {
    if a == "" {
      assert a + b == b && a + CStr(b) == CStr(b);
    } else {
      assert (a + b)[1..] == a[1..] + b;
      CStrFound(a[1..], b);
      assert a + CStr(b) == [a[0]] + (a[1..] + CStr(b));
    }
  }

  lemma {:induction false} SpaceTrimsRight(rest: string, space: string)
    requires (forall i :: 0 <= i < |space| ==> IsSpace(space[i])) && (rest == "" || !IsSpace(rest[|rest| - 1]))
    ensures TrimRight(rest + space) == rest
    decreases |space|
  {
    if space == "" {
      assert rest + space == rest;
    } else {
      assert (rest + space)[..|rest + space| - 1] == rest + space[..|space| - 1];
      SpaceTrimsRight(rest, space[..|space| - 1]);
    }
  }

  /** Trimming takes white space on both sides and a comment, and nothing else. */
  lemma Trimmed(indent: string, core: string, trail: string, comment: string)
    requires Tight(core) && '#' !in core && (comment == "" || comment[0] == '#')
    requires forall i :: 0 <= i < |indent| ==> IsSpace(indent[i])
    requires forall i :: 0 <= i < |trail| ==> IsSpace(trail[i])
    requires core == "" ==> trail == ""
    ensures Trim(indent + core + trail + comment) == core
  {
    var text := indent + core + trail;
    forall i | 0 <= i < |text|
      ensures text[i] != '#'
    {
      assert text[i] == if i < |indent| then indent[i] else if i < |indent| + |core| then core[i - |indent|] else trail[i - |indent| - |core|];
    }
    BeforeFound(text, '#', comment);
    assert text == indent + (core + trail);
    assert core + trail != "" ==> (core + trail)[0] == core[0];
    SpaceTrims(indent, core + trail);
    SpaceTrimsRight(core, trail);
  }

  /** What is left of an entry's line before it is split: key and value with the '=' and the white space around it. */
  function Core(l: Line): string
    requires l.Entry?
  {
    l.c.key + l.before + "=" + if l.c.value == "" then "" else l.behind + l.c.value
  }

  lemma TrimsBehind(core: string, trail: string)
    requires CleanText(core) && Blank(trail) && (core == "" ==> trail == "")
    ensures Trim(core + trail) == core
  {
    assert core + trail == "" + core + trail + "";
    Trimmed("", core, trail, "");
  }

  lemma TrimsInFront(indent: string, core: string)
    requires CleanText(core) && Blank(indent)
    ensures Trim(indent + core) == core
  {
    assert indent + core == indent + core + "" + "";
    Trimmed(indent, core, "", "");
  }

  lemma CutAt(left: string, right: string, core: string)
    requires '=' !in left && core == left + "=" + right
    ensures |left| < |core| && '=' in core && Before(core, '=') == left && core[|left| + 1..] == right
  {
    assert core == left + (['='] + right);
    BeforeFound(left, '=', ['='] + right);
    assert core[|left|] == '=';
  }

  lemma CoreSplits(l: Line, core: string, left: string)
    requires Written(l) && l.Entry? && core == Core(l) && left == l.c.key + l.before
    ensures |left| < |core| && '=' in core && Before(core, '=') == left && Trim(left) == l.c.key
    ensures Trim(core[|left| + 1..]) == l.c.value
  {
    var gap := if l.c.value == "" then "" else l.behind;
    var right := if l.c.value == "" then "" else l.behind + l.c.value;
    TrimsBehind(l.c.key, l.before);
    TrimsInFront(gap, l.c.value);
    assert right == gap + l.c.value;
    CutAt(left, right, core);
  }

  lemma CoreIsTight(l: Line, core: string)
    requires Written(l) && l.Entry? && core == Core(l)
    ensures Tight(core) && core != "" && '#' !in core
  {
    var left, right := l.c.key + l.before, if l.c.value == "" then "" else l.behind + l.c.value;
    PlainJoins(l.c.key, l.before);
    PlainJoins(l.behind, l.c.value);
    PlainJoins(left, ['=']);
    PlainJoins(left + ['='], right);
    assert core == (left + ['=']) + right;
    assert core[0] == l.c.key[0];
    assert core[|core| - 1] == if l.c.value == "" then '=' else l.c.value[|l.c.value| - 1];
  }

  /** The first 1023 characters of a line as a C string: of what follows a text that fits, some beginning. */
  lemma CutBehind(shown: string, trail: string, comment: string) returns (trail': string, comment': string)
    requires '\0' !in shown && |shown| < 1024 && Blank(trail) && (comment == "" || comment[0] == '#')
    ensures var line := shown + (trail + comment);
            CStr(if |line| >= 1024 then line[..1023] else line) == shown + (trail' + comment')
    ensures Blank(trail') && (comment' == "" || comment'[0] == '#')
  {
    var line, rest := shown + (trail + comment), trail + comment;
    var n := if |line| >= 1024 then 1023 - |shown| else |rest|;
    var kept := rest[..n];
    assert (if |line| >= 1024 then line[..1023] else line) == shown + kept;
    trail' := trail[..Min(n, |trail|)];
    var cut := if n <= |trail| then "" else comment[..n - |trail|];
    assert kept == trail' + cut;
    CStrFound(shown, kept);
    assert '\0' !in trail' by {
      assert forall i :: 0 <= i < |trail'| ==> IsSpace(trail'[i]);
    }
    CStrFound(trail', cut);
    comment' := CStr(cut);
  }

  lemma ShownIsPlain(l: Line)
    requires Written(l) && l.Entry?
    ensures Plain(Shown(l)) && '#' !in Shown(l)
  {
    var a, b := l.indent + l.c.key, l.before + "=";
    PlainJoins(l.indent, l.c.key);
    PlainJoins(l.before, "=");
    PlainJoins(a, b);
    PlainJoins(l.behind, l.c.value);
    PlainJoins(a + b, l.behind + l.c.value);
    assert Shown(l) == (a + b) + (l.behind + l.c.value);
  }

  lemma PlainJoins(a: string, b: string)
    requires Plain(a) && Plain(b) && '#' !in a && '#' !in b
    ensures Plain(a + b) && '#' !in a + b
  {
  }

  lemma Regrouped(l: Line, trail: string, comment: string, blank: string)
    requires l.Entry? && blank == (if l.c.value == "" then l.behind else "") + trail
    ensures Shown(l) + (trail + comment) == l.indent + Core(l) + blank + comment
  {
    var left := l.indent + l.c.key + l.before + "=";
    assert l.indent + Core(l) == left + if l.c.value == "" then "" else l.behind + l.c.value;
    assert Shown(l) == left + (l.behind + l.c.value);
  }

  lemma SplitAt(line: string, cut: string, core: string, left: string, c: Setting)
    requires cut == CStr(if |line| >= 1024 then line[..1023] else line) && Trim(cut) == core
    requires core != "" && '=' in core && |left| < |core| && Before(core, '=') == left
    requires Trim(left) == c.key && Trim(core[|left| + 1..]) == c.value
    ensures SplitLine(line) == Some(c)
  {
  }

  lemma LineCut(l: Line) returns (trail: string, comment: string)
    requires Written(l) && l.Entry?
    ensures var line := LineText(l);
            CStr(if |line| >= 1024 then line[..1023] else line) == Shown(l) + (trail + comment)
    ensures Blank(trail) && (comment == "" || comment[0] == '#')
  {
    ShownIsPlain(l);
    trail, comment := CutBehind(Shown(l), l.trail, l.comment);
  }

  lemma BlankJoins(a: string, b: string)
    requires Blank(a) && Blank(b)
    ensures Blank(a + b)
  {
  }

  lemma CutTrims(l: Line, core: string, trail: string, comment: string)
    requires Written(l) && l.Entry? && core == Core(l) && Blank(trail) && (comment == "" || comment[0] == '#')
    ensures Trim(Shown(l) + (trail + comment)) == core
  {
    var gap := if l.c.value == "" then l.behind else "";
    BlankJoins(gap, trail);
    CoreIsTight(l, core);
    Regrouped(l, trail, comment, gap + trail);
    Trimmed(l.indent, core, gap + trail, comment);
  }

  /** A setting is read back from its line however it is spaced and whatever comment follows. */
  lemma LineReadsBack(l: Line)
    requires Written(l) && l.Entry?
    ensures SplitLine(LineText(l)) == Some(l.c)
  {
    var trail, comment := LineCut(l);
    var core, left, cut := Core(l), l.c.key + l.before, Shown(l) + (trail + comment);
    CutTrims(l, core, trail, comment);
    CoreSplits(l, core, left);
    CoreIsTight(l, core);
    SplitAt(LineText(l), cut, core, left, l.c);
  }

  /** A line without '=' in front of its comment sets nothing. */
  lemma IdleReadsNothing(l: Line)
    requires Written(l) && l.Idle?
    ensures SplitLine(LineText(l)) == None
  {
    var line := LineText(l);
    var cut := if |line| >= 1024 then line[..1023] else line;
    var text := l.text[..Min(|cut|, |l.text|)];
    assert cut == text + cut[|text|..];
    CStrFound(text, cut[|text|..]);
    var comment := CStr(cut[|text|..]);
    BeforeFound(text, '#', comment);
    TrimKeepsOut(text);
  }

  lemma TrimKeepsOut(text: string)
    requires '=' !in text
    ensures '=' !in TrimRight(TrimLeft(text))
  {
    LeftKeepsOut(text);
    RightKeepsOut(TrimLeft(text));
  }

  lemma {:induction false} LeftKeepsOut(text: string)
    requires '=' !in text
    ensures '=' !in TrimLeft(text)
  {
    if text != "" {
      LeftKeepsOut(text[1..]);
    }
  }

  lemma {:induction false} RightKeepsOut(text: string)
    requires '=' !in text
    ensures '=' !in TrimRight(text)
  {
    if text != "" {
      RightKeepsOut(text[..|text| - 1]);
    }
  }

  /** A line ends where its text does, and the next one starts behind the breaks. */
  lemma {:induction false} LineEndAt(payload: string, i: nat, n: nat)
    requires i + n <= |payload| && (i + n < |payload| ==> IsBreak(payload[i + n]))
    requires forall k :: i <= k < i + n ==> !IsBreak(payload[k])
    ensures LineEnd(payload, i) == i + n
    decreases n
  {
    if n > 0 {
      LineEndAt(payload, i + 1, n - 1);
    }
  }

  lemma {:induction false} BreaksEndAt(payload: string, i: nat, n: nat)
    requires i + n <= |payload| && (i + n < |payload| ==> !IsBreak(payload[i + n]))
    requires forall k :: i <= k < i + n ==> IsBreak(payload[k])
    ensures BreaksEnd(payload, i) == i + n
    decreases n
  {
    if n > 0 {
      BreaksEndAt(payload, i + 1, n - 1);
    }
  }

  lemma LineStep(payload: string, i: nat, line: string, ends: string, rest: string)
    requires i < |payload| && payload[i..] == line + ends + rest
    requires (forall k :: 0 <= k < |line| ==> !IsBreak(line[k])) && Breaks(ends)
    requires if rest == "" then true else ends != "" && !IsBreak(rest[0])
    ensures LineEnd(payload, i) == i + |line| && NextLine(payload, i) == i + |line| + |ends|
    ensures payload[i..LineEnd(payload, i)] == line && payload[NextLine(payload, i)..] == rest
  {
    var n, m, tail := |line|, |ends|, payload[i..];
    forall k | i <= k < i + n
      ensures !IsBreak(payload[k])
    {
      assert payload[k] == tail[k - i] == line[k - i];
    }
    forall k | i + n <= k < i + n + m
      ensures IsBreak(payload[k])
    {
      assert payload[k] == tail[k - i] == ends[k - i - n];
    }
    if i + n < |payload| {
      assert payload[i + n] == tail[n];
      assert m == 0 ==> rest == "";
    }
    LineEndAt(payload, i, n);
    assert rest != "" ==> payload[i + n + m] == tail[n + m] == rest[0];
    BreaksEndAt(payload, i + n, m);
    assert payload[i..i + n] == tail[..n] == line;
    assert payload[i + n + m..] == tail[n + m..] == rest;
  }

  /** Lines as they may follow each other: only the last one may do without a break. */
  ghost predicate Listed(lines: seq<Line>) {
    && (forall k :: 0 <= k < |lines| ==> Written(lines[k]))
    && forall k :: 0 <= k < |lines| - 1 ==> lines[k].ends != ""
  }

  lemma TextIsPlain(l: Line)
    requires Written(l)
    ensures LineText(l) != "" && forall k :: 0 <= k < |LineText(l)| ==> !IsBreak(LineText(l)[k])
  {
    if l.Entry? {
      ShownIsPlain(l);
      assert Shown(l) != "";
    }
  }

  lemma ListStart(lines: seq<Line>)
    requires Listed(lines) && lines != []
    ensures PayloadText(lines) != "" && !IsBreak(PayloadText(lines)[0])
  {
    TextIsPlain(lines[0]);
    assert PayloadText(lines)[0] == LineText(lines[0])[0];
  }

  /** Reading a published payload gives exactly the settings published, in order, however its lines are written. */
  lemma {:induction false} PayloadRoundTrip(payload: string, i: nat, lines: seq<Line>)
    requires Listed(lines) && i <= |payload| && payload[i..] == PayloadText(lines)
    ensures Assignments(payload, i) == Wanted(Settings(lines))
    decreases |lines|
  {
    if lines != [] {
      var l, rest := lines[0], lines[1..];
      ListStart(lines);
      TextIsPlain(l);
      if rest != [] {
        ListStart(rest);
      }
      var next := OneLine(payload, i, LineText(l), l.ends, PayloadText(rest));
      PayloadRoundTrip(payload, next, rest);
      FirstLine(l, rest);
      assert [l] + rest == lines;
    }
  }

  lemma OneLine(payload: string, i: nat, line: string, ends: string, rest: string) returns (next: nat)
    requires i <= |payload| && line != "" && payload[i..] == line + ends + rest
    requires (forall k :: 0 <= k < |line| ==> !IsBreak(line[k])) && Breaks(ends)
    requires if rest == "" then true else ends != "" && !IsBreak(rest[0])
    ensures next <= |payload| && payload[next..] == rest
    ensures Assignments(payload, i)
         == (match ReadLine(line) case None => [] case Some(a) => [a]) + Assignments(payload, next)
  {
    assert i < |payload|;
    LineStep(payload, i, line, ends, rest);
    next := NextLine(payload, i);
  }

  lemma FirstLine(l: Line, rest: seq<Line>)
    requires Written(l)
    ensures Wanted(Settings([l] + rest))
         == (match ReadLine(LineText(l)) case None => [] case Some(a) => [a]) + Wanted(Settings(rest))
  {
    assert ([l] + rest)[1..] == rest;
    if l.Entry? {
      LineReadsBack(l);
      assert ([l.c] + Settings(rest))[1..] == Settings(rest);
    } else {
      IdleReadsNothing(l);
      assert [] + Settings(rest) == Settings(rest);
      assert [] + Wanted(Settings(rest)) == Wanted(Settings(rest));
    }
  }

  /** Applying settings: a known key ends up with the last value given for it, whatever the fields were. */
  lemma {:induction false} LastSettingWins(fields: map<string, Field>, settings: seq<Setting>, k: nat, a: Assignment)
    requires k < |settings| && Assigned(settings[k]) == Some(a)
    requires forall i :: k < i < |settings| ==> settings[i].key != settings[k].key
    ensures var after := ApplyAll(fields, Wanted(settings)); a.key in after && after[a.key] == a.field
    decreases |settings|
  {
    var first, rest := Assigned(settings[0]), settings[1..];
    var here := match first case None => [] case Some(b) => [b];
    assert first.Some? ==> (here + Wanted(rest))[0] == first.value && (here + Wanted(rest))[1..] == Wanted(rest);
    assert first.None? ==> here + Wanted(rest) == Wanted(rest);
    var fields' := if first.None? then fields else fields[first.value.key := first.value.field];
    assert ApplyAll(fields, Wanted(settings)) == ApplyAll(fields', Wanted(rest));
    if k > 0 {
      assert rest[k - 1] == settings[k];
      assert forall i :: k - 1 < i < |rest| ==> rest[i] == settings[i + 1];
      LastSettingWins(fields', rest, k - 1, a);
    } else {
      assert forall i :: 0 <= i < |rest| ==> rest[i] == settings[i + 1];
      NotWanted(rest, a.key);
      LastAssignmentWins(fields', Wanted(rest), a.key);
    }
  }

  /** A key that is not set, or not known, is not assigned. */
  lemma {:induction false} NotWanted(settings: seq<Setting>, key: string)
    requires KindOf(key).Some? ==> forall i :: 0 <= i < |settings| ==> settings[i].key != key
    ensures NoneOf(Wanted(settings), key)
    decreases |settings|
  {
    if settings != [] {
      NotWanted(settings[1..], key);
    }
  }

  lemma ReadInFull(lead: string, lines: seq<Line>)
    requires Breaks(lead) && Listed(lines)
    ensures Assignments(lead + PayloadText(lines), 0) == Wanted(Settings(lines))
  {
    var payload := lead + PayloadText(lines);
    assert payload[0..] == payload;
    if lead == "" {
      PayloadRoundTrip(payload, 0, lines);
    } else {
      if lines != [] {
        ListStart(lines);
      }
      assert payload == "" + lead + PayloadText(lines);
      LineStep(payload, 0, "", lead, PayloadText(lines));
      PayloadRoundTrip(payload, |lead|, lines);
      assert payload[0..0] == "" && SplitLine("") == None;
    }
  }

  lemma {:induction false} FirstIsFound(table: seq<Known>, i: nat)
    requires i < |table| && forall j :: 0 <= j < i ==> table[j].key != table[i].key
    ensures Lookup(table, table[i].key) == Some(table[i].kind)
    decreases |table|
  {
    if i > 0 {
      assert forall j :: 0 <= j < i - 1 ==> table[1..][j] == table[j + 1];
      FirstIsFound(table[1..], i - 1);
    }
  }

  /** No key is listed twice. */
  lemma KeysDiffer(i: nat, j: nat)
    requires i < j < |KnownKeys()|
    ensures KnownKeys()[i].key != KnownKeys()[j].key
  {
  }

  /** Every key of the table is known, with its own kind, and can be written. */
  lemma EveryKeyIsKnown(i: nat)
    requires i < |KnownKeys()|
    ensures KindOf(KnownKeys()[i].key) == Some(KnownKeys()[i].kind)
  {
    forall j | 0 <= j < i
      ensures KnownKeys()[j].key != KnownKeys()[i].key
    {
      KeysDiffer(j, i);
    }
    FirstIsFound(KnownKeys(), i);
  }

  lemma SizesHaveRoom(f: nat)
    requires f < |KnownKeys()| && KnownKeys()[f].kind.TextKind?
    ensures KnownKeys()[f].kind.size > 0
  {
  }

  lemma {:induction false} UnknownIsNone(table: seq<Known>, key: string)
    requires forall i :: 0 <= i < |table| ==> table[i].key != key
    ensures Lookup(table, key) == None
    decreases |table|
  {
    if table != [] {
      UnknownIsNone(table[1..], key);
    }
  }

  /**
   A published payload arrives. The known key f, set in it last by setting k, has after it is applied: if it is an integer,
   the integer that the value starts with, a sign if there is one and digits by their places; if it is a text, the value
   itself when it is shorter than the field, and its beginning that fills the field when it is not.
   */
  lemma PublishedPayloadArrives(fields: map<string, Field>, lead: string, lines: seq<Line>, k: nat, f: nat,
                                sign: string, digits: string, tail: string)
    requires Breaks(lead) && Listed(lines) && IsNumeral(sign, digits, tail)
    requires k < |Settings(lines)| && f < |KnownKeys()| && Settings(lines)[k].key == KnownKeys()[f].key
    requires forall i :: k < i < |Settings(lines)| ==> Settings(lines)[i].key != Settings(lines)[k].key
    ensures var after, key := ApplyAll(fields, Assignments(lead + PayloadText(lines), 0)), KnownKeys()[f].key;
            var value := Settings(lines)[k].value;
            && key in after
            && match KnownKeys()[f].kind
               case IntKind =>
                 value == sign + digits + tail ==>
                   after[key] == Num(if sign == "-" then -Positional(digits) else Positional(digits))
               case TextKind(size) =>
                 size > 0 && after[key] == Text(if |value| < size then value else value[..size - 1])
  {
    var set_, kind := Settings(lines)[k], KnownKeys()[f].kind;
    EveryKeyIsKnown(f);
    ReadInFull(lead, lines);
    LastIsConverted(fields, Settings(lines), k, kind);
    if kind.TextKind? {
      SizesHaveRoom(f);
    } else if set_.value == sign + digits + tail {
      NumeralReads(set_.value, sign, digits, tail);
    }
  }

  lemma LastIsConverted(fields: map<string, Field>, settings: seq<Setting>, k: nat, kind: Kind)
    requires k < |settings| && KindOf(settings[k].key) == Some(kind)
    requires forall i :: k < i < |settings| ==> settings[i].key != settings[k].key
    ensures var after := ApplyAll(fields, Wanted(settings));
            settings[k].key in after && after[settings[k].key] == Converted(kind, settings[k].value)
  {
    LastSettingWins(fields, settings, k, Assignment(settings[k].key, Converted(kind, settings[k].value)));
  }

  /** A field that no setting names, or that is not in the table, keeps its value. */
  lemma OtherFieldsStay(fields: map<string, Field>, lead: string, lines: seq<Line>, key: string)
    requires Breaks(lead) && Listed(lines)
    requires (forall i :: 0 <= i < |Settings(lines)| ==> Settings(lines)[i].key != key)
             || (forall f :: 0 <= f < |KnownKeys()| ==> KnownKeys()[f].key != key)
    ensures var after := ApplyAll(fields, Assignments(lead + PayloadText(lines), 0));
            (key in after <==> key in fields) && (key in fields ==> after[key] == fields[key])
  {
    ReadInFull(lead, lines);
    if forall f :: 0 <= f < |KnownKeys()| ==> KnownKeys()[f].key != key {
      UnknownIsNone(KnownKeys(), key);
    }
    NotWanted(Settings(lines), key);
    LastAssignmentWins(fields, Wanted(Settings(lines)), key);
  }
}
