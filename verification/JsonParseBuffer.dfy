/**
 The parse buffer: the parser as cJSON runs it, moving one offset forwards and, at the start of every list, one step
 back. Every method is proved to compute the parsing function of JsonParser, including the offset it leaves behind
 when it fails, to read only inside the text, and to write only inside the string it allocated.
 */
module JsonParseBuffer {
  import opened Common
  import opened Json
  import opened JsonStrings
  import opened JsonNumbers
  import opened JsonParser

  // ------------------------------------------------- lists built by appending

  function ItemsOf(values: seq<Json>, tail: Items): Items {
    if values == [] then tail else Item(values[0], ItemsOf(values[1..], tail))
  }

  function MembersOf(names: seq<string>, values: seq<Json>, tail: Members): Members
    requires |names| == |values|
  {
    if values == [] then tail else Member(names[0], values[0], MembersOf(names[1..], values[1..], tail))
  }

  lemma {:induction false} ItemsOfAppend(values: seq<Json>, v: Json, tail: Items)
    ensures ItemsOf(values + [v], tail) == ItemsOf(values, Item(v, tail))
    decreases |values|
  {
    if values != [] {
      assert (values + [v])[1..] == values[1..] + [v];
      ItemsOfAppend(values[1..], v, tail);
    }
  }

  lemma {:induction false} MembersOfAppend(names: seq<string>, values: seq<Json>, name: string, v: Json, tail: Members)
    requires |names| == |values|
    ensures MembersOf(names + [name], values + [v], tail) == MembersOf(names, values, Member(name, v, tail))
    decreases |values|
  {
    if values != [] {
      assert (names + [name])[1..] == names[1..] + [name];
      assert (values + [v])[1..] == values[1..] + [v];
      MembersOfAppend(names[1..], values[1..], name, v, tail);
    }
  }

  /** What the rest of an element loop gives, once `values` are in the list. */
  function AfterItems(values: seq<Json>, r: Parsed<Items>): Parsed<Items> {
    match r
    case Fail(at) => Fail(at)
    case Ok(items, next) => Ok(ItemsOf(values, items), next)
  }

  function AfterMembers(names: seq<string>, values: seq<Json>, r: Parsed<Members>): Parsed<Members>
    requires |names| == |values|
  {
    match r
    case Fail(at) => Fail(at)
    case Ok(members, next) => Ok(MembersOf(names, values, members), next)
  }

  /** One turn of the element loop: the value read moves from the rest into the list. */
  lemma ItemsAdvance(s: string, p: nat, depth: nat, limit: nat, values: seq<Json>, v: Json, next: nat)
    requires Terminated(s) && p + 1 < |s|
    requires ParseValue(s, SkipWs(s, p + 1), depth, limit) == Ok(v, next) && next < |s|
    ensures AfterItems(values, ParseItems(s, p, depth, limit))
         == var q := SkipWs(s, next);
            if s[q] == ',' then AfterItems(values + [v], ParseItems(s, q, depth, limit))
            else Ok(ItemsOf(values + [v], NoItems), q)
  {
    var q := SkipWs(s, next);
    if s[q] == ',' {
      var rest := ParseItems(s, q, depth, limit);
      if rest.Ok? {
        ItemsOfAppend(values, v, rest.value);
      }
    } else {
      ItemsOfAppend(values, v, NoItems);
    }
  }

  lemma MembersFail(s: string, p: nat, depth: nat, limit: nat, names: seq<string>, values: seq<Json>, at: nat)
    requires Terminated(s) && p + 1 < |s| && |names| == |values|
    requires var name := ParseName(s, SkipWs(s, p + 1));
             name == Fail(at) || (name.Ok? && ParseValue(s, name.next, depth, limit) == Fail(at))
    ensures AfterMembers(names, values, ParseMembers(s, p, depth, limit)) == Fail(at)
  {
  }

  lemma ItemsFail(s: string, p: nat, depth: nat, limit: nat, values: seq<Json>, at: nat)
    requires Terminated(s) && p + 1 < |s| && ParseValue(s, SkipWs(s, p + 1), depth, limit) == Fail(at)
    ensures AfterItems(values, ParseItems(s, p, depth, limit)) == Fail(at)
  {
  }

  lemma MembersAdvance(s: string, p: nat, depth: nat, limit: nat, names: seq<string>, values: seq<Json>,
                       name: string, valueAt: nat, v: Json, next: nat) returns (whole: Parsed<Members>, q: nat)
    requires Terminated(s) && p + 1 < |s| && |names| == |values|
    requires ParseName(s, SkipWs(s, p + 1)) == Ok(name, valueAt)
    requires ParseValue(s, valueAt, depth, limit) == Ok(v, next)
    ensures whole == AfterMembers(names, values, ParseMembers(s, p, depth, limit)) && q == SkipWs(s, next)
    ensures s[q] == ',' ==> q + 1 < |s|
    ensures whole == if s[q] == ',' then AfterMembers(names + [name], values + [v], ParseMembers(s, q, depth, limit))
                     else Ok(MembersOf(names + [name], values + [v], NoMembers), q)
  {
    var r, more;
    r, q, more := MembersAre(s, p, depth, limit, name, valueAt, v, next);
    whole := AfterMembers(names, values, r);
    if s[q] == ',' {
      if more.Ok? {
        MembersOfAppend(names, values, name, v, more.value);
      }
    } else {
      MembersOfAppend(names, values, name, v, NoMembers);
    }
  }

  // ----------------------------------------------------------- string output

  /** A C string ends at its first NUL, whatever the buffer holds behind it. */
  lemma {:induction false} CStrStops(a: string, rest: string)
    ensures CStr(a + ['\0'] + rest) == CStr(a)
    decreases |a|
  {
    var whole := a + ['\0'] + rest;
    if a != "" && a[0] != '\0' {
      assert whole[1..] == a[1..] + ['\0'] + rest;
      CStrStops(a[1..], rest);
    }
  }

  /** The bytes written so far, followed by what the writing pass still has to write, are the whole string. */
  ghost predicate WrittenSoFar(s: string, start: nat, end: nat, input: nat, done: string)
    requires end < |s|
  {
    Unescape(s, start, end) == Prepend(done, Unescape(s, input, end))
  }

  lemma WriteMore(s: string, start: nat, end: nat, input: nat, done: string, more: string, input': nat)
    requires end < |s| && WrittenSoFar(s, start, end, input, done)
    requires |done| <= |more| && more[..|done|] == done
    requires Unescape(s, input, end) == Prepend(more[|done|..], Unescape(s, input', end))
    ensures WrittenSoFar(s, start, end, input', more)
  {
    PrependTwice(done, more, Unescape(s, input', end));
  }

  lemma PrependTwice(done: string, more: string, u: Unescaped)
    requires |done| <= |more| && more[..|done|] == done
    ensures Prepend(done, Prepend(more[|done|..], u)) == Prepend(more, u)
  {
    assert more == done + more[|done|..];
    assert done + (more[|done|..] + u.bytes) == more + u.bytes;
  }

  /** The value of the first n digits. */
  function FirstDigits(s: string, p: nat, n: nat): (h: nat)
    requires p + n <= |s| && forall k :: p <= k < p + n ==> HexValue(s[k]).Some?
  {
    if n == 0 then 0 else FirstDigits(s, p, n - 1) * 16 + HexValue(s[p + n - 1]).value
  }

  /** parse_hex4: digit by digit, making place for the next one. */
  method ReadHex4(s: string, p: nat) returns (h: nat)
    requires p + 4 <= |s|
    ensures h == ParseHex4(s, p)
  {
    h := 0;
    for i := 0 to 4
      invariant forall k :: p <= k < p + i ==> HexValue(s[k]).Some?
      invariant h == if i < 4 then FirstDigits(s, p, i) * 16 else FirstDigits(s, p, 4)
    {
      var c := s[p + i];
      if '0' <= c <= '9' {
        h := h + (c as int - '0' as int);
      } else if 'A' <= c <= 'F' {
        h := h + (10 + c as int - 'A' as int);
      } else if 'a' <= c <= 'f' {
        h := h + (10 + c as int - 'a' as int);
      } else {
        return 0;
      }
      if i < 3 {
        h := h * 16;
      }
    }
    FourDigits(s, p);
  }

  lemma FourDigits(s: string, p: nat)
    requires p + 4 <= |s| && forall k :: p <= k < p + 4 ==> HexValue(s[k]).Some?
    ensures FirstDigits(s, p, 4) == ParseHex4(s, p)
  {
    assert FirstDigits(s, p, 1) == HexValue(s[p]).value;
    assert FirstDigits(s, p, 2) == HexValue(s[p]).value * 16 + HexValue(s[p + 1]).value;
    assert FirstDigits(s, p, 3) == FirstDigits(s, p, 2) * 16 + HexValue(s[p + 2]).value;
  }

  /**
   utf16_literal_to_utf8: the length of the escape, zero if it is bad, and the output position behind the bytes written.
   The bytes are written from the last to the first, taking six bits of the code point at a time.
   */
  method Utf16LiteralToUtf8(s: string, input: nat, end: nat, output: array<char>, at: nat)
    returns (length: nat, next: nat)
    requires input <= end <= |s| && at <= output.Length
    requires Utf16Literal(s, input, end).Literal? ==> at + |Utf8(Utf16Literal(s, input, end).codepoint)| <= output.Length
    modifies output
    ensures next <= output.Length && output[..at] == old(output[..at]) && output[next..] == old(output[next..])
    ensures match Utf16Literal(s, input, end)
            case BadLiteral => length == 0 && next == at
            case Literal(codepoint, n) => length == n && at < next && output[at..next] == Utf8(codepoint)
  {
    length, next := 0, at;
    if end - input < 6 {
      return;
    }
    var first := ReadHex4(s, input + 2);
    if 0xDC00 <= first <= 0xDFFF {
      return;
    }
    var codepoint: nat;
    if 0xD800 <= first <= 0xDBFF {
      if end - (input + 6) < 6 || s[input + 6] != '\\' || s[input + 7] != 'u' {
        return;
      }
      var second := ReadHex4(s, input + 8);
      if second < 0xDC00 || second > 0xDFFF {
        return;
      }
      length := 12;
      codepoint := 0x10000 + first % 0x400 * 0x400 + second % 0x400;
    } else {
      length := 6;
      codepoint := first;
    }
    assert Utf16Literal(s, input, end) == Literal(codepoint, length);
    next := EncodeUtf8(codepoint, output, at);
  }

  method EncodeUtf8(cp: nat, output: array<char>, at: nat) returns (next: nat)
    requires cp <= 0x10FFFF && at + |Utf8(cp)| <= output.Length
    modifies output
    ensures at < next <= output.Length && output[at..next] == Utf8(cp)
    ensures output[..at] == old(output[..at]) && output[next..] == old(output[next..])
  {
    var size, mark := SizeAndMark(cp);
    var rest := WriteTrails(cp, output, at, size);
    next := WriteLead(output, at, size, mark + rest, Trails(cp, size - 1));
  }

  /** How many bytes, and the mark of the first one. */
  method SizeAndMark(cp: nat) returns (size: nat, mark: nat)
    requires cp <= 0x10FFFF
    ensures 0 < size == |Utf8(cp)| && mark + Shifted(cp, size - 1) < 256
    ensures Utf8(cp) == [ByteChar(mark + Shifted(cp, size - 1))] + Trails(cp, size - 1)
  {
    size, mark := 1, 0;
    if 0x80 <= cp < 0x800 {
      size, mark := 2, 0xC0;
    } else if 0x800 <= cp < 0x10000 {
      size, mark := 3, 0xE0;
    } else if 0x10000 <= cp {
      size, mark := 4, 0xF0;
    }
    Utf8Bytes(cp, size, mark);
  }

  method WriteLead(output: array<char>, at: nat, size: nat, lead: nat, ghost trails: string) returns (next: nat)
    requires 0 < size && at + size <= output.Length && lead < 256 && output[at + 1..at + size] == trails
    modifies output
    ensures next == at + size && output[at..next] == [ByteChar(lead)] + trails
    ensures output[..at] == old(output[..at]) && output[next..] == old(output[next..])
  {
    output[at] := ByteChar(lead);
    next := at + size;
    assert output[at..next] == [output[at]] + output[at + 1..next];
  }

  /** The loop over the continuation bytes, leaving the bits for the first byte. */
  method WriteTrails(cp: nat, output: array<char>, at: nat, size: nat) returns (rest: nat)
    requires 0 < size && at + size <= output.Length
    modifies output
    ensures rest == Shifted(cp, size - 1) && output[at + 1..at + size] == Trails(cp, size - 1)
    ensures output[..at] == old(output[..at]) && output[at + size..] == old(output[at + size..])
  {
    rest := cp;
    var i := size - 1;
    while i > 0
      invariant 0 <= i < size
      invariant Shifted(cp, size - 1) == Shifted(rest, i)
      invariant Trails(cp, size - 1) == Trails(rest, i) + output[at + 1 + i..at + size]
      invariant output[..at] == old(output[..at]) && output[at + size..] == old(output[at + size..])
    {
      ghost var done := output[at + 1 + i..at + size];
      output[at + i] := Trail(rest);
      assert output[at + i..at + size] == [Trail(rest)] + done;
      rest := rest / 64;
      i := i - 1;
    }
  }

  /** The code point shifted right k times by six bits. */
  function Shifted(cp: nat, k: nat): nat {
    if k == 0 then cp else Shifted(cp / 64, k - 1)
  }

  /** The last n continuation bytes. */
  function Trails(cp: nat, n: nat): string {
    if n == 0 then "" else Trails(cp / 64, n - 1) + [Trail(cp)]
  }

  lemma ShiftedIs(cp: nat)
    ensures Shifted(cp, 0) == cp && Shifted(cp, 1) == cp / 64 && Shifted(cp, 2) == cp / 64 / 64
    ensures Shifted(cp, 3) == cp / 64 / 64 / 64
  {
    assert Shifted(cp / 64, 1) == cp / 64 / 64;
    assert Shifted(cp / 64 / 64, 1) == cp / 64 / 64 / 64;
  }

  lemma TrailsAre(cp: nat)
    ensures Trails(cp, 0) == "" && Trails(cp, 1) == [Trail(cp)] && Trails(cp, 2) == [Trail(cp / 64), Trail(cp)]
    ensures Trails(cp, 3) == [Trail(cp / 64 / 64), Trail(cp / 64), Trail(cp)]
  {
    assert Trails(cp / 64, 1) == [Trail(cp / 64)];
    assert Trails(cp / 64, 2) == Trails(cp / 64 / 64, 1) + [Trail(cp / 64)];
  }

  /** The size and the mark utf16_literal_to_utf8 chooses give the encoding. */
  lemma Utf8Bytes(cp: nat, size: nat, mark: nat)
    requires cp <= 0x10FFFF
    requires if cp < 0x80 then size == 1 && mark == 0 else if cp < 0x800 then size == 2 && mark == 0xC0
             else if cp < 0x10000 then size == 3 && mark == 0xE0 else size == 4 && mark == 0xF0
    ensures mark + Shifted(cp, size - 1) < 256
    ensures Utf8(cp) == [ByteChar(mark + Shifted(cp, size - 1))] + Trails(cp, size - 1)
  {
    ShiftedIs(cp);
    TrailsAre(cp);
  }

  // -------------------------------------------------------------- the buffer

  class ParseBuffer {
    /** The C string with its terminating NUL. */
    const content: string
    const limit: nat
    var offset: nat
    var depth: nat

    constructor (content: string, limit: nat)
      requires Terminated(content)
      ensures this.content == content && this.limit == limit && offset == 0 && depth == 0
    {
      this.content, this.limit, this.offset, this.depth := content, limit, 0, 0;
    }

    /** The outcome of a parsing method: its answer and the offset it left are those of the parsing function. */
    ghost predicate Agrees<T>(r: Parsed<T>, ok: bool, value: T)
      reads this
    {
      && ok == r.Ok?
      && (if ok then value == r.value && offset == r.next else offset == r.at)
    }

    method SkipWhitespace()
      requires Terminated(content) && offset <= |content|
      modifies this`offset
      ensures offset == SkipWs(content, old(offset))
    {
      while offset < |content| && content[offset] <= ' '
        invariant offset <= |content| && SkipBlank(content, offset) == SkipBlank(content, old(offset))
      {
        offset := offset + 1;
      }
      if offset == |content| {
        offset := offset - 1;
      }
    }

    /** The sizing pass: the position of the closing quote and the number of backslashes skipped. */
    method FindClosingQuote() returns (found: bool, end: nat, skipped: nat)
      requires offset < |content|
      ensures found == Scan(content, offset + 1).End?
      ensures found ==> Scan(content, offset + 1) == End(end, skipped)
    {
      end, skipped := offset + 1, 0;
      while end < |content| && content[end] != '\"'
        invariant offset < end <= |content|
        invariant Scan(content, offset + 1)
               == match Scan(content, end)
                  case NoEnd => NoEnd
                  case End(at, more) => End(at, skipped + more)
      {
        if content[end] == '\\' {
          if end + 1 >= |content| {
            return false, end, skipped;
          }
          skipped := skipped + 1;
          end := end + 1;
        }
        end := end + 1;
      }
      found := end < |content|;
    }

    method ParseString() returns (ok: bool, value: string)
      requires offset < |content|
      modifies this`offset
      ensures Agrees(JsonParser.ParseString(content, old(offset)), ok, value)
    {
      var input := offset + 1;
      if content[offset] != '\"' {
        offset := input;
        return false, "";
      }
      var found, end, skipped := FindClosingQuote();
      if !found {
        offset := input;
        return false, "";
      }
      UnescapeSizing(content, input);
      var output := new char[end - offset - skipped + 1];
      var length;
      ok, input, length := UnescapeInto(input, end, output);
      if !ok {
        offset := input;
        return false, "";
      }
      output[length] := '\0';
      assert output[..] == output[..length] + ['\0'] + output[length + 1..];
      CStrStops(output[..length], output[length + 1..]);
      value := CStr(output[..]);
      offset := end + 1;
    }

    /** The writing pass: it stays inside an output that is one longer than the bytes to write. */
    method UnescapeInto(start: nat, end: nat, output: array<char>) returns (ok: bool, input: nat, length: nat)
      requires start <= end < |content|
      requires |Unescape(content, start, end).bytes| < output.Length
      modifies output
      ensures length < output.Length
      ensures Unescape(content, start, end) == Unescaped(ok, output[..length], input)
    {
      input, length := start, 0;
      while input < end
        invariant length < output.Length && WrittenSoFar(content, start, end, input, output[..length])
        decreases end - input
      {
        ghost var done := output[..length];
        var n, next := UnescapeNext(input, end, output, length);
        if n == 0 {
          return false, input, length;
        }
        WriteMore(content, start, end, input, done, output[..next], input + n);
        input, length := input + n, next;
      }
      ok := true;
    }

    /** The next character or escape sequence: how much input it takes, zero if it is bad, and where the output goes on. */
    method UnescapeNext(input: nat, end: nat, output: array<char>, at: nat) returns (n: nat, next: nat)
      requires input < end < |content|
      requires at + |Unescape(content, input, end).bytes| < output.Length
      modifies output
      ensures at <= next < output.Length && output[..at] == old(output[..at])
      ensures if n == 0 then next == at && Unescape(content, input, end) == Unescaped(false, "", input)
              else Unescape(content, input, end) == Prepend(output[..next][at..], Unescape(content, input + n, end))
    {
      if content[input] != '\\' {
        output[at] := content[input];
        n, next := 1, at + 1;
      } else if content[input + 1] == 'u' {
        n, next := Utf16LiteralToUtf8(content, input, end, output, at);
      } else {
        match SimpleEscape(content[input + 1])
        case None =>
          n, next := 0, at;
        case Some(c) =>
          output[at] := c;
          n, next := 2, at + 1;
      }
      assert output[..next][at..] == output[at..next];
    }

    /** Copies at most 63 number characters and lets strtod read the copy. */
    method ParseNumber() returns (ok: bool, item: Json)
      requires offset < |content|
      modifies this`offset
      ensures Agrees(JsonParser.ParseNumber(content, old(offset)), ok, item)
    {
      var number := new char[MAX_NUMBER_LENGTH + 1];
      var i := CopyNumber(number, MAX_NUMBER_LENGTH);
      var text := number[..i];
      assert text == NumberText(content, offset);
      var conversion := Strtod(text);
      if conversion.NoConversion? {
        return false, Null;
      }
      offset := offset + conversion.length;
      return true, Number(conversion.value);
    }

    method CopyNumber(number: array<char>, limit: nat) returns (i: nat)
      requires offset <= |content| && number.Length == limit + 1
      modifies number
      ensures i == RunLength(content, offset, limit) && number[..i] == content[offset..offset + i] && number[i] == '\0'
    {
      i := 0;
      ghost var n, at, room: nat := RunLength(content, offset, limit), offset, limit;
      while i < limit && offset + i < |content| && IsNumberChar(content[offset + i])
        invariant 0 <= i <= limit && at == offset + i && room == limit - i && at <= |content|
        invariant number[..i] == content[offset..at]
        invariant n == i + RunLength(content, at, room)
      {
        CopyOne(number, i, content[offset + i]);
        SliceGrows(content, offset, i);
        RunGrows(content, at, room);
        i := i + 1;
        at, room := at + 1, room - 1;
      }
      CopyOne(number, i, '\0');
    }

    lemma RunGrows(s: string, p: nat, limit: nat)
      requires p < |s| && limit > 0 && IsNumberChar(s[p])
      ensures RunLength(s, p, limit) == 1 + RunLength(s, p + 1, limit - 1)
    {
    }

    method CopyOne(number: array<char>, i: nat, c: char)
      requires i < number.Length
      modifies number
      ensures number[i] == c && number[..i] == old(number[..i]) && number[..i + 1] == old(number[..i]) + [c]
    {
      number[i] := c;
    }

    lemma SliceGrows(s: string, from: nat, n: nat)
      requires from + n < |s|
      ensures s[from..from + (n + 1)] == s[from..from + n] + [s[from + n]]
    {
    }

    method ParseValue() returns (ok: bool, item: Json)
      requires Terminated(content) && offset < |content|
      modifies this
      ensures Agrees(JsonParser.ParseValue(content, old(offset), old(depth), limit), ok, item)
      ensures ok ==> depth == old(depth)
      decreases |content| - offset, 2
    {
      if At(content, offset, "null") {
        ScalarInside(content, offset);
        offset := offset + 4;
        return true, Null;
      }
      if At(content, offset, "false") {
        ScalarInside(content, offset);
        offset := offset + 5;
        return true, False;
      }
      if At(content, offset, "true") {
        ScalarInside(content, offset);
        offset := offset + 4;
        return true, True;
      }
      if content[offset] == '\"' {
        var value;
        ok, value := ParseString();
        return ok, Str(value);
      }
      if content[offset] == '-' || IsDigit(content[offset]) {
        ok, item := ParseNumber();
        return;
      }
      if content[offset] == '[' {
        ok, item := ParseArray();
        return;
      }
      if content[offset] == '{' {
        ok, item := ParseObject();
        return;
      }
      return false, Null;
    }

    /** Past the opening bracket: onto the closing one, or onto the character in front of the first element. */
    method OpenList(close: char) returns (empty: bool)
      requires Terminated(content) && offset + 1 < |content|
      modifies this
      ensures depth == old(depth) + 1
      ensures offset < |content|
      ensures var q := SkipWs(content, old(offset) + 1);
              empty == (content[q] == close) && offset == if empty then q else q - 1
    {
      depth := depth + 1;
      offset := offset + 1;
      SkipWhitespace();
      empty := content[offset] == close;
      if !empty {
        offset := offset - 1;
      }
    }

    method ParseArray() returns (ok: bool, item: Json)
      requires Terminated(content) && offset < |content| && content[offset] == '['
      modifies this
      ensures Agrees(JsonParser.ParseArray(content, old(offset), old(depth), limit), ok, item)
      ensures ok ==> depth == old(depth)
      decreases |content| - offset, 1
    {
      if depth >= limit {
        return false, Null;
      }
      ghost var r, _, start, inner, list := ArrayIs(content, offset, depth, limit);
      var empty := OpenList(']');
      assert offset == start;
      assert depth == inner;
      item := Array(NoItems);
      if !empty {
        var values;
        ok, values := ParseElements();
        if !ok || content[offset] != ']' {
          return false, Null;
        }
        item := Array(ItemsOf(values, NoItems));
      }
      assert r == Ok(item, offset + 1);
      depth := depth - 1;
      offset := offset + 1;
      ok := true;
    }

    /** The element loop, from the character in front of the first element. */
    method ParseElements() returns (ok: bool, values: seq<Json>)
      requires Terminated(content) && offset + 1 < |content|
      modifies this
      ensures Agrees(ParseItems(content, old(offset), old(depth), limit), ok, ItemsOf(values, NoItems))
      ensures ok ==> depth == old(depth)
      decreases |content| - offset, 0
    {
      ghost var depth0, list := depth, ParseItems(content, offset, depth, limit);
      values := [];
      var more := true;
      while more
        invariant old(offset) <= offset < |content| && depth == depth0
        invariant more ==> offset + 1 < |content|
                           && list == AfterItems(values, ParseItems(content, offset, depth0, limit))
        invariant !more ==> list == Ok(ItemsOf(values, NoItems), offset)
        decreases |content| - offset, more
      {
        var v;
        ok, v := ParseElement(values);
        if !ok {
          return;
        }
        values := values + [v];
        more := content[offset] == ',';
      }
      ok := true;
    }

    /** One turn of the element loop. */
    method ParseElement(ghost values: seq<Json>) returns (ok: bool, v: Json)
      requires Terminated(content) && offset + 1 < |content|
      modifies this
      ensures ok ==> old(offset) < offset < |content| && depth == old(depth)
      ensures AfterItems(values, ParseItems(content, old(offset), old(depth), limit))
           == if !ok then Fail(offset)
              else if content[offset] == ',' then
                AfterItems(values + [v], ParseItems(content, offset, old(depth), limit))
              else Ok(ItemsOf(values + [v], NoItems), offset)
      decreases |content| - offset - 1, 3
    {
      ghost var before, depth0 := offset, depth;
      offset := offset + 1;
      SkipWhitespace();
      ghost var r := JsonParser.ParseValue(content, offset, depth0, limit);
      assert r == JsonParser.ParseValue(content, SkipWs(content, before + 1), depth0, limit);
      ok, v := ParseValue();
      assert Agrees(r, ok, v);
      if !ok {
        ItemsFail(content, before, depth0, limit, values, offset);
        return;
      }
      ItemsAdvance(content, before, depth0, limit, values, v, offset);
      SkipWhitespace();
    }

    method ParseObject() returns (ok: bool, item: Json)
      requires Terminated(content) && offset < |content| && content[offset] == '{'
      modifies this
      ensures Agrees(JsonParser.ParseObject(content, old(offset), old(depth), limit), ok, item)
      ensures ok ==> depth == old(depth)
      decreases |content| - offset, 1
    {
      if depth >= limit {
        return false, Null;
      }
      ghost var r, _, start, inner, list := ObjectIs(content, offset, depth, limit);
      var empty := OpenList('}');
      assert offset == start;
      assert depth == inner;
      item := Object(NoMembers);
      if !empty {
        var names, values;
        ok, names, values := ParseMemberList();
        if !ok || content[offset] != '}' {
          return false, Null;
        }
        item := Object(MembersOf(names, values, NoMembers));
      }
      assert r == Ok(item, offset + 1);
      depth := depth - 1;
      offset := offset + 1;
      ok := true;
    }

    /** The member loop, from the character in front of the first name. */
    method ParseMemberList() returns (ok: bool, names: seq<string>, values: seq<Json>)
      requires Terminated(content) && offset + 1 < |content|
      modifies this
      ensures |names| == |values|
      ensures Agrees(ParseMembers(content, old(offset), old(depth), limit), ok, MembersOf(names, values, NoMembers))
      ensures ok ==> depth == old(depth)
      decreases |content| - offset, 0
    {
      ghost var depth0, list := depth, ParseMembers(content, offset, depth, limit);
      names, values := [], [];
      var more := true;
      while more
        invariant old(offset) <= offset < |content| && depth == depth0 && |names| == |values|
        invariant more ==> offset + 1 < |content|
                           && list == AfterMembers(names, values, ParseMembers(content, offset, depth0, limit))
        invariant !more ==> list == Ok(MembersOf(names, values, NoMembers), offset)
        decreases |content| - offset, more
      {
        var name, v;
        ok, name, v := ParseMember(names, values);
        if !ok {
          return;
        }
        names, values := names + [name], values + [v];
        more := content[offset] == ',';
      }
      ok := true;
    }

    /** One turn of the member loop. */
    method ParseMember(ghost names: seq<string>, ghost values: seq<Json>) returns (ok: bool, name: string, v: Json)
      requires Terminated(content) && offset + 1 < |content| && |names| == |values|
      modifies this
      ensures ok ==> old(offset) < offset < |content| && depth == old(depth)
      ensures AfterMembers(names, values, ParseMembers(content, old(offset), old(depth), limit))
           == if !ok then Fail(offset)
              else if content[offset] == ',' then
                AfterMembers(names + [name], values + [v], ParseMembers(content, offset, old(depth), limit))
              else Ok(MembersOf(names + [name], values + [v], NoMembers), offset)
      decreases |content| - offset - 1, 3
    {
      ghost var before, depth0 := offset, depth;
      v := Null;
      offset := offset + 1;
      SkipWhitespace();
      ghost var n := ParseName(content, offset);
      assert n == ParseName(content, SkipWs(content, before + 1));
      ok, name := ParseNameAndColon();
      assert Agrees(n, ok, name);
      if !ok {
        MembersFail(content, before, depth0, limit, names, values, offset);
        return;
      }
      ok, v := ParseMemberValue(names, values, name, before);
    }

    /** The rest of the turn, from the value on. */
    method ParseMemberValue(ghost names: seq<string>, ghost values: seq<Json>, ghost name: string, ghost before: nat)
      returns (ok: bool, v: Json)
      requires Terminated(content) && before < offset < |content| && |names| == |values|
      requires ParseName(content, SkipWs(content, before + 1)) == Ok(name, offset)
      modifies this
      ensures ok ==> old(offset) < offset < |content| && depth == old(depth)
      ensures AfterMembers(names, values, ParseMembers(content, before, old(depth), limit))
           == if !ok then Fail(offset)
              else if content[offset] == ',' then
                AfterMembers(names + [name], values + [v], ParseMembers(content, offset, old(depth), limit))
              else Ok(MembersOf(names + [name], values + [v], NoMembers), offset)
      decreases |content| - offset, 3
    {
      ghost var valueAt, depth0 := offset, depth;
      ghost var r := JsonParser.ParseValue(content, offset, depth0, limit);
      ok, v := ParseValue();
      assert Agrees(r, ok, v);
      if !ok {
        MembersFail(content, before, depth0, limit, names, values, offset);
        return;
      }
      ghost var whole, q := MembersAdvance(content, before, depth0, limit, names, values, name, valueAt, v, offset);
      SkipWhitespace();
      assert offset == q;
    }

    /** The part of the member loop that reads the name and the colon, up to the value. */
    method ParseNameAndColon() returns (ok: bool, name: string)
      requires Terminated(content) && offset < |content|
      modifies this`offset
      ensures Agrees(ParseName(content, old(offset)), ok, name)
    {
      ok, name := ParseString();
      if !ok {
        return;
      }
      SkipWhitespace();
      if content[offset] != ':' {
        return false, name;
      }
      offset := offset + 1;
      SkipWhitespace();
    }
  }

  /** cJSON_ParseWithOpts: the value, and the position where the parse ended or the error is reported. */
  method ParseWithOpts(text: string, requireNullTerminated: bool, limit: nat) returns (ok: bool, item: Json, end: nat)
    requires '\0' !in text
    ensures match Parse(text, requireNullTerminated, limit)
            case Ok(v, next) => ok && item == v && end == next
            case Fail(at) => !ok && end == at
  {
    var buffer := new ParseBuffer(text + "\0", limit);
    buffer.SkipWhitespace();
    ok, item := buffer.ParseValue();
    if ok && requireNullTerminated {
      buffer.SkipWhitespace();
      ok := buffer.content[buffer.offset] == '\0';
    }
    end := if ok || buffer.offset < |buffer.content| then buffer.offset else |buffer.content| - 1;
  }
}
