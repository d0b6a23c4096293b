/**
 The print buffer: text is written behind `offset` into a buffer that grows by doubling what is needed. A printed value
 leaves `offset` somewhere inside its own text; the caller moves it to the end with strlen (update_offset).

 Every printing method is proved to write exactly the rendering of Json.Render behind the text already there, and to
 succeed exactly if the rendering and its slack fit: within the given buffer when it may not grow, within INT_MAX
 otherwise. Allocation itself never fails here.
 */
module JsonPrinter {
  import opened Common
  import opened Json
  import opened JsonStrings
  import opened Doubles
  import opened JsonNumbers
  import opened NumberFormat
  import opened JsonRoundTrip
  import opened JsonParseBuffer

  const INT_MAX: int := 0x7FFF_FFFF

  /** How much more room than its text a value asks for, counting the terminating NUL. */
  function Slack(v: Json): nat {
    if v.Number? then 1 else 2
  }

  class PrintBuffer {
    var buffer: array<char>
    var length: nat
    var offset: nat
    var depth: nat
    const noalloc: bool
    const format: bool
    /** The most the buffer can ever hold. */
    ghost const capacity: int
    /** All the text printed so far; the offset may lag behind its end. */
    ghost var text: string

    /** `length` says how many bytes of the buffer the printer knows of. */
    constructor (buffer: array<char>, length: nat, noalloc: bool, format: bool)
      requires length <= buffer.Length && length <= INT_MAX
      ensures Valid() && Settled() && text == "" && depth == 0
      ensures this.noalloc == noalloc && this.format == format && this.buffer == buffer
      ensures capacity == if noalloc then length else INT_MAX
    {
      this.buffer, this.length, this.offset, this.depth, this.noalloc, this.format := buffer, length, 0, 0, noalloc, format;
      this.capacity, this.text := if noalloc then length else INT_MAX, "";
    }

    ghost predicate Valid()
      reads this, buffer
    {
      && length <= buffer.Length && length <= INT_MAX && capacity == (if noalloc then length else INT_MAX)
      && (if length == 0 then text == "" else |text| < length)
      && buffer[..|text|] == text && offset <= |text|
      && (offset < |text| ==> Closed() && '\0' !in text[offset..])
    }

    ghost predicate Settled()
      reads this
    {
      offset == |text|
    }

    /** The text is a C string. */
    ghost predicate Closed()
      reads this, buffer
    {
      |text| < buffer.Length && buffer[|text|] == '\0'
    }

    method Ensure(needed: nat) returns (ok: bool)
      requires Valid() && Settled()
      modifies this`buffer, this`length
      ensures Valid()
      ensures ok <==> offset + needed + 1 <= capacity
      ensures ok ==> offset + needed + 1 <= length
      ensures buffer == old(buffer) || (!noalloc && fresh(buffer))
    {
      if length > 0 && offset >= length {
        return false;
      }
      if needed > INT_MAX {
        return false;
      }
      var total := needed + offset + 1;
      if total <= length {
        return true;
      }
      if noalloc {
        return false;
      }
      var newsize;
      if total > INT_MAX / 2 {
        if total > INT_MAX {
          return false;
        }
        newsize := INT_MAX;
      } else {
        newsize := total * 2;
      }
      var newbuffer := new char[newsize];
      var kept := if buffer.Length <= newsize then buffer.Length else newsize;
      forall i | 0 <= i < kept {
        newbuffer[i] := buffer[i];
      }
      assert newbuffer[..offset] == buffer[..offset];
      buffer, length := newbuffer, newsize;
      ok := true;
    }

    /** Characters written through the pointer that Ensure returned. */
    method Write(at: nat, t: string)
      requires at + |t| <= buffer.Length
      modifies buffer
      ensures buffer[..at + |t|] == old(buffer[..at]) + t
    {
      var i := 0;
      while i < |t|
        invariant 0 <= i <= |t|
        invariant buffer[..at + i] == old(buffer[..at]) + t[..i]
      {
        buffer[at + i] := t[i];
        i := i + 1;
      }
      assert t[..i] == t;
    }

    method WriteTabs(at: nat, count: nat)
      requires at + count <= buffer.Length
      modifies buffer
      ensures |Tabs(count)| == count && buffer[..at + count] == old(buffer[..at]) + Tabs(count)
    {
      var i := 0;
      TabsGrow(0);
      while i < count
        invariant 0 <= i <= count && |Tabs(i)| == i
        invariant buffer[..at + i] == old(buffer[..at]) + Tabs(i)
      {
        buffer[at + i] := '\t';
        TabsGrow(i);
        i := i + 1;
      }
    }

    /** Ensure, write and step over the piece. */
    method Append(piece: string, needed: nat, terminated: bool) returns (ok: bool)
      requires Valid() && Settled() && |piece| <= needed
      modifies this`buffer, this`length, this`offset, this`text, buffer
      ensures Valid() && Settled()
      ensures ok <==> old(offset) + needed + 1 <= capacity
      ensures ok ==> text == old(text) + piece && (terminated ==> Closed())
      ensures buffer == old(buffer) || (!noalloc && fresh(buffer))
    {
      ok := Ensure(needed);
      if ok {
        Write(offset, piece);
        if terminated {
          buffer[offset + |piece|] := '\0';
        }
        assert buffer[..offset + |piece|] == text + piece;
        offset, text := offset + |piece|, text + piece;
      }
    }

    /** Ensure and write, leaving the offset in front of the piece. */
    method Finish(piece: string) returns (ok: bool)
      requires Valid() && Settled() && '\0' !in piece
      modifies this`buffer, this`length, this`text, buffer
      ensures Valid()
      ensures ok <==> offset + |piece| + 2 <= capacity
      ensures ok ==> text == old(text) + piece && Closed()
      ensures buffer == old(buffer) || (!noalloc && fresh(buffer))
    {
      ok := Ensure(|piece| + 1);
      if ok {
        Write(offset, piece);
        Close(offset + |piece|, piece);
      }
    }

    /** The terminator behind a piece that has been written at the offset. */
    method Close(end: nat, ghost piece: string)
      requires Valid() && Settled() && '\0' !in piece && end == |text| + |piece| && end + 2 <= length
      requires buffer[..end] == text + piece
      modifies this`text, buffer
      ensures Valid() && text == old(text) + piece && Closed()
    {
      text := text + piece;
      buffer[end] := '\0';
      assert text[offset..] == piece;
    }

    /** strlen from the offset. */
    method UpdateOffset()
      requires Valid() && Closed()
      modifies this`offset
      ensures Valid() && Settled()
    {
      forall i | offset <= i < |text|
        ensures buffer[i] != '\0'
      {
        assert buffer[..|text|][i] == text[offset..][i - offset];
      }
      while buffer[offset] != '\0'
        invariant old(offset) <= offset <= |text|
        invariant buffer[..|text|] == text && '\0' !in text[offset..]
        decreases |text| - offset
      {
        offset := offset + 1;
      }
    }

    // ------------------------------------------------------------ scalars

    /** How many characters escaping adds. */
    method CountEscapes(s: string) returns (count: nat)
      ensures |s| + count == |Escape(s)|
    {
      count := 0;
      var i := 0;
      assert s[0..] == s;
      while i < |s|
        invariant 0 <= i <= |s| && i + count + |Escape(s[i..])| == |Escape(s)|
      {
        var c := s[i];
        if c == '\"' || c == '\\' || c == BACKSPACE || c == FORM_FEED || c == '\n' || c == '\r' || c == '\t' {
          count := count + 1;
        } else if c < ' ' {
          count := count + 5;
        }
        assert s[i..][1..] == s[i + 1..];
        i := i + 1;
      }
    }

    /** print_string_ptr: count, ensure, and copy or escape between the quotes. */
    method PrintStringPtr(s: string) returns (ok: bool)
      requires Valid() && Settled() && '\0' !in s
      modifies this`buffer, this`length, this`text, buffer
      ensures Valid()
      ensures ok <==> offset + |Quote(s)| + 2 <= capacity
      ensures ok ==> text == old(text) + Quote(s) && Closed()
      ensures buffer == old(buffer) || (!noalloc && fresh(buffer))
    {
      var count := CountEscapes(s);
      ok := Ensure(|s| + count + 3);
      if ok {
        FinishQuoted(s, count);
      }
    }

    method FinishQuoted(s: string, count: nat)
      requires Valid() && Settled() && '\0' !in s && |s| + count == |Escape(s)| && offset + |s| + count + 4 <= length
      modifies this`text, buffer
      ensures Valid() && text == old(text) + Quote(s) && Closed()
    {
      ghost var piece := Quote(s);
      QuoteNulFree(s);
      WriteQuoted(s, count);
      var end := offset + |s| + count + 2;
      assert end == offset + |piece|;
      Close(end, piece);
    }

    /** Both branches of the copy, between the quotes. */
    method WriteQuoted(s: string, count: nat)
      requires |s| + count == |Escape(s)| && offset + |Escape(s)| + 3 <= buffer.Length
      modifies buffer
      ensures |Quote(s)| == |Escape(s)| + 2 && buffer[..offset + |Quote(s)|] == old(buffer[..offset]) + Quote(s)
    {
      ghost var before := buffer[..offset];
      Write(offset, "\"");
      var end := WriteCharacters(offset + 1, s, count);
      Write(end, "\"");
      QuoteParts(before, s);
    }

    method WriteCharacters(at: nat, s: string, count: nat) returns (end: nat)
      requires |s| + count == |Escape(s)| && at + |Escape(s)| < buffer.Length
      modifies buffer
      ensures end == at + |Escape(s)| && buffer[..end] == old(buffer[..at]) + Escape(s)
    {
      if count == 0 {
        NothingEscaped(s);
        Write(at, s);
        end := at + |s|;
      } else {
        end := WriteEscaped(at, s);
      }
    }

    /** The escaping copy; sprintf's terminator falls on the place of the next character or the closing quote. */
    method WriteEscaped(at: nat, s: string) returns (end: nat)
      requires at + |Escape(s)| < buffer.Length
      modifies buffer
      ensures end == at + |Escape(s)| && buffer[..end] == old(buffer[..at]) + Escape(s)
    {
      ghost var whole := buffer[..at] + Escape(s);
      var i := 0;
      end := at;
      assert s[0..] == s;
      while i < |s|
        invariant 0 <= i <= |s| && at <= end <= end + |Escape(s[i..])| == |whole|
        invariant buffer[..end] + Escape(s[i..]) == whole
      {
        EscapeForward(buffer[..end], s, i);
        end := WriteOne(end, s[i]);
        i := i + 1;
      }
      assert buffer[..end] + "" == buffer[..end];
    }

    method WriteOne(at: nat, c: char) returns (next: nat)
      requires at + |EscapeChar(c)| < buffer.Length
      modifies buffer
      ensures next == at + |EscapeChar(c)| && buffer[..next] == old(buffer[..at]) + EscapeChar(c)
    {
      if c >= ' ' && c != '\"' && c != '\\' {
        buffer[at] := c;
        next := at + 1;
      } else {
        next := WriteEscape(at, c);
      }
    }

    method WriteEscape(at: nat, c: char) returns (next: nat)
      requires at + |EscapeChar(c)| < buffer.Length && (c < ' ' || c == '\"' || c == '\\')
      modifies buffer
      ensures next == at + |EscapeChar(c)| && buffer[..next] == old(buffer[..at]) + EscapeChar(c)
    {
      if c >= ' ' || c == BACKSPACE || c == FORM_FEED || c == '\n' || c == '\r' || c == '\t' {
        var letter := if c == BACKSPACE then 'b' else if c == FORM_FEED then 'f' else if c == '\n' then 'n'
                      else if c == '\r' then 'r' else if c == '\t' then 't' else c;
        Write(at, ['\\', letter]);
        next := at + 2;
      } else {
        Write(at, ['\\', 'u', '0', '0', HexDigit(c as int / 16), HexDigit(c as int % 16)]);
        next := at + 6;
        buffer[next] := '\0';
      }
    }

    /** print_number. */
    method PrintNumber(d: Double) returns (ok: bool)
      requires Valid() && Settled() && Holds(d)
      modifies this`buffer, this`length, this`offset, this`text, buffer
      ensures Valid() && Settled()
      ensures ok <==> old(offset) + |NumberPrint(d)| + 1 <= capacity
      ensures ok ==> text == old(text) + NumberPrint(d) && Closed()
      ensures buffer == old(buffer) || (!noalloc && fresh(buffer))
    {
      var number;
      match d {
        case Finite(x) =>
          number := NumeralText(Printed(x));
          PrintedShort(x);
        case _ =>
          number := "null";
      }
      if |number| > 25 {
        return false;
      }
      ok := Append(number, |number|, true);
    }

    // ----------------------------------------------------------- containers

    method PrintValue(v: Json) returns (ok: bool)
      requires Valid() && Settled() && Printable(v)
      modifies this, buffer
      ensures Valid()
      ensures ok <==> old(offset) + |Render(v, format, old(depth))| + Slack(v) <= capacity
      ensures ok ==> text == old(text) + Render(v, format, old(depth)) && Closed() && depth == old(depth)
      ensures buffer == old(buffer) || (!noalloc && fresh(buffer))
      decreases v, 0
    {
      match v
      case Null => ok := Finish("null");
      case False => ok := Finish("false");
      case True => ok := Finish("true");
      case Number(d) => ok := PrintNumber(d);
      case Str(s) => ok := PrintStringPtr(s);
      case Array(items) => ok := PrintArray(items);
      case Object(members) => ok := PrintObject(members);
    }

    /** print_value and update_offset, as every list element is printed. */
    method AppendValue(v: Json) returns (ok: bool)
      requires Valid() && Settled() && Printable(v)
      modifies this, buffer
      ensures Valid()
      ensures ok <==> old(offset) + |Render(v, format, old(depth))| + Slack(v) <= capacity
      ensures ok ==> Settled() && text == old(text) + Render(v, format, old(depth)) && depth == old(depth)
      ensures buffer == old(buffer) || (!noalloc && fresh(buffer))
      decreases v, 1
    {
      ok := PrintValue(v);
      if ok {
        UpdateOffset();
      }
    }

    method AppendName(name: string) returns (ok: bool)
      requires Valid() && Settled() && '\0' !in name
      modifies this`buffer, this`length, this`offset, this`text, buffer
      ensures Valid()
      ensures ok <==> old(offset) + |Quote(name)| + 2 <= capacity
      ensures ok ==> Settled() && text == old(text) + Quote(name)
      ensures buffer == old(buffer) || (!noalloc && fresh(buffer))
    {
      ok := PrintStringPtr(name);
      if ok {
        UpdateOffset();
      }
    }

    method PrintArray(items: Items) returns (ok: bool)
      requires Valid() && Settled() && PrintableItems(items)
      modifies this, buffer
      ensures Valid()
      ensures ok <==> old(offset) + |Render(Array(items), format, old(depth))| + 2 <= capacity
      ensures ok ==> text == old(text) + Render(Array(items), format, old(depth)) && Closed() && depth == old(depth)
      ensures buffer == old(buffer) || (!noalloc && fresh(buffer))
      decreases items, 3
    {
      ghost var inner := depth + 1;
      ArrayParts(text, items, format, depth, inner);
      ok := Append("[", 1, false);
      if ok {
        ok := PrintToBracket(items, inner);
      }
    }

    /** The elements, one level deeper, and the closing bracket. */
    method PrintToBracket(items: Items, ghost inner: nat) returns (ok: bool)
      requires Valid() && Settled() && PrintableItems(items) && inner == depth + 1
      modifies this, buffer
      ensures Valid()
      ensures ok <==> old(offset) + |RenderItems(items, format, inner)| + 3 <= capacity
      ensures ok ==> text == old(text) + RenderItems(items, format, inner) + "]" && Closed() && depth == old(depth)
      ensures buffer == old(buffer) || (!noalloc && fresh(buffer))
      decreases items, 2
    {
      depth := depth + 1;
      ok := PrintElements(items);
      if ok {
        ok := Finish("]");
        depth := depth - 1;
      }
    }

    /** The element loop. */
    method PrintElements(items: Items) returns (ok: bool)
      requires Valid() && Settled() && PrintableItems(items)
      modifies this, buffer
      ensures Valid()
      ensures !ok ==> old(offset) + |RenderItems(items, format, old(depth))| + 2 > capacity
      ensures ok ==> Settled() && text == old(text) + RenderItems(items, format, old(depth)) && depth == old(depth)
      ensures buffer == old(buffer) || (!noalloc && fresh(buffer))
      decreases items, 1
    {
      ghost var whole := text + RenderItems(items, format, depth);
      ok := true;
      var current := items;
      while ok && current.Item?
        invariant Valid() && (buffer == old(buffer) || (!noalloc && fresh(buffer)))
        invariant PrintableItems(current) && (current == items || current < items)
        invariant if ok then Settled() && depth == old(depth) && text + RenderItems(current, format, depth) == whole
                  else |whole| + 2 > capacity
        decreases current, ok
      {
        ItemForward(text, current, format, depth);
        ok := PrintItem(current);
        current := current.next;
      }
    }

    /** One element of the array loop: its value and what separates it from the next. */
    method PrintItem(current: Items) returns (ok: bool)
      requires Valid() && Settled() && PrintableItems(current) && current.Item?
      modifies this, buffer
      ensures Valid()
      ensures !ok ==> old(offset) + |OneItem(current, format, old(depth))| + 2 > capacity
      ensures ok ==> Settled() && text == old(text) + OneItem(current, format, old(depth)) && depth == old(depth)
      ensures buffer == old(buffer) || (!noalloc && fresh(buffer))
      decreases current, 0
    {
      Assoc(text, Render(current.value, format, depth), ItemSeparator(format, current.next.NoItems?));
      ok := AppendValue(current.value);
      if ok && current.next.Item? {
        ok := Append(if format then ", " else ",", if format then 3 else 2, true);
      }
    }

    method PrintObject(members: Members) returns (ok: bool)
      requires Valid() && Settled() && PrintableMembers(members)
      modifies this, buffer
      ensures Valid()
      ensures ok <==> old(offset) + |Render(Object(members), format, old(depth))| + 2 <= capacity
      ensures ok ==> text == old(text) + Render(Object(members), format, old(depth)) && Closed() && depth == old(depth)
      ensures buffer == old(buffer) || (!noalloc && fresh(buffer))
      decreases members, 3
    {
      ghost var outer, inner := depth, depth + 1;
      ObjectParts(text, members, format, outer, inner);
      ok := OpenObject();
      if ok {
        ok := PrintToBrace(members, outer, inner);
      }
    }

    /** The members, one level deeper, and the closing brace. */
    method PrintToBrace(members: Members, ghost outer: nat, ghost inner: nat) returns (ok: bool)
      requires Valid() && Settled() && PrintableMembers(members) && outer == depth && inner == depth + 1
      modifies this, buffer
      ensures Valid()
      ensures ok <==> old(offset) + |RenderMembers(members, format, inner)| + |CloseBrace(format, outer)| + 2 <= capacity
      ensures ok ==> text == old(text) + RenderMembers(members, format, inner) + CloseBrace(format, outer)
      ensures ok ==> Closed() && depth == old(depth)
      ensures buffer == old(buffer) || (!noalloc && fresh(buffer))
      decreases members, 2
    {
      depth := depth + 1;
      CloseBraceText(format, outer);
      ok := PrintMemberList(members);
      if ok {
        ok := CloseObject(outer);
        depth := depth - 1;
      }
    }

    method OpenObject() returns (ok: bool)
      requires Valid() && Settled()
      modifies this`buffer, this`length, this`offset, this`text, buffer
      ensures Valid() && Settled()
      ensures ok <==> old(offset) + |OpenBrace(format)| + 2 <= capacity
      ensures ok ==> text == old(text) + OpenBrace(format)
      ensures buffer == old(buffer) || (!noalloc && fresh(buffer))
    {
      ok := Append(if format then "{\n" else "{", if format then 3 else 2, false);
    }

    /** The member loop. */
    method PrintMemberList(members: Members) returns (ok: bool)
      requires Valid() && Settled() && PrintableMembers(members)
      modifies this, buffer
      ensures Valid()
      ensures !ok ==> old(offset) + |RenderMembers(members, format, old(depth))| + 2 > capacity
      ensures ok ==> Settled() && text == old(text) + RenderMembers(members, format, old(depth)) && depth == old(depth)
      ensures buffer == old(buffer) || (!noalloc && fresh(buffer))
      decreases members, 1
    {
      ghost var whole := text + RenderMembers(members, format, depth);
      ok := true;
      var current := members;
      while ok && current.Member?
        invariant Valid() && (buffer == old(buffer) || (!noalloc && fresh(buffer)))
        invariant PrintableMembers(current) && (current == members || current < members)
        invariant if ok then Settled() && depth == old(depth) && text + RenderMembers(current, format, depth) == whole
                  else |whole| + 2 > capacity
        decreases current, ok
      {
        MemberForward(text, current, format, depth);
        ok := PrintMember(current);
        current := current.next;
      }
    }

    /** One member of the object loop: indentation, name, colon, value and what separates it from the next. */
    method PrintMember(current: Members) returns (ok: bool)
      requires Valid() && Settled() && PrintableMembers(current) && current.Member?
      modifies this, buffer
      ensures Valid()
      ensures !ok ==> old(offset) + |OneMember(current, format, old(depth))| + 2 > capacity
      ensures ok ==> Settled() && text == old(text) + OneMember(current, format, old(depth)) && depth == old(depth)
      ensures buffer == old(buffer) || (!noalloc && fresh(buffer))
      decreases current, 0
    {
      MemberPieces(text, current, format, depth);
      ok := AppendNamePart(current.name);
      if ok {
        ok := AppendRest(current);
      }
    }

    method AppendNamePart(name: string) returns (ok: bool)
      requires Valid() && Settled() && '\0' !in name
      modifies this`buffer, this`length, this`offset, this`text, buffer
      ensures Valid()
      ensures !ok ==> old(offset) + |NamePart(name, format, depth)| + 2 > capacity
      ensures ok ==> Settled() && text == old(text) + NamePart(name, format, depth)
      ensures buffer == old(buffer) || (!noalloc && fresh(buffer))
    {
      NamePieces(text, name, format, depth);
      ok := AppendIndent();
      if ok {
        ok := AppendName(name);
      }
      if ok {
        ok := Append(if format then ":\t" else ":", if format then 2 else 1, false);
      }
    }

    method AppendRest(current: Members) returns (ok: bool)
      requires Valid() && Settled() && PrintableMembers(current) && current.Member?
      modifies this, buffer
      ensures Valid()
      ensures !ok ==> old(offset) + |RestPart(current, format, old(depth))| + 2 > capacity
      ensures ok ==> Settled() && text == old(text) + RestPart(current, format, old(depth)) && depth == old(depth)
      ensures buffer == old(buffer) || (!noalloc && fresh(buffer))
      decreases current.value, 2
    {
      Assoc(text, Render(current.value, format, depth), MemberSeparator(format, current.next.NoMembers?));
      ok := AppendValue(current.value);
      if ok {
        ok := AppendSeparator(current.next.NoMembers?);
      }
    }

    method AppendIndent() returns (ok: bool)
      requires Valid() && Settled()
      modifies this`buffer, this`length, this`offset, this`text, buffer
      ensures Valid() && Settled()
      ensures !ok ==> old(offset) + |Indent(format, depth)| + 1 > capacity
      ensures ok ==> text == old(text) + Indent(format, depth)
      ensures buffer == old(buffer) || (!noalloc && fresh(buffer))
    {
      ok := true;
      if format {
        ok := AppendTabs();
      }
    }

    /** The comma between members and the line break, neither, or both. */
    method AppendSeparator(last: bool) returns (ok: bool)
      requires Valid() && Settled()
      modifies this`buffer, this`length, this`offset, this`text, buffer
      ensures Valid() && Settled()
      ensures ok <==> old(offset) + |MemberSeparator(format, last)| + 2 <= capacity
      ensures ok ==> text == old(text) + MemberSeparator(format, last) && Closed()
      ensures buffer == old(buffer) || (!noalloc && fresh(buffer))
    {
      var separator := (if last then "" else ",") + (if format then "\n" else "");
      ok := Append(separator, |separator| + 1, true);
    }

    method AppendTabs() returns (ok: bool)
      requires Valid() && Settled()
      modifies this`buffer, this`length, this`offset, this`text, buffer
      ensures Valid() && Settled()
      ensures ok <==> old(offset) + |Tabs(depth)| + 1 <= capacity
      ensures ok ==> text == old(text) + Tabs(depth)
      ensures buffer == old(buffer) || (!noalloc && fresh(buffer))
    {
      TabsGrow(depth);
      ok := Ensure(depth);
      if ok {
        WriteTabs(offset, depth);
        offset, text := offset + depth, text + Tabs(depth);
      }
    }

    /** The closing brace, indented one level less than the members. */
    method CloseObject(ghost outer: nat) returns (ok: bool)
      requires Valid() && Settled() && depth == outer + 1
      modifies this`buffer, this`length, this`text, buffer
      ensures Valid()
      ensures ok <==> offset + |CloseBrace(format, outer)| + 2 <= capacity
      ensures ok ==> text == old(text) + CloseBrace(format, outer) && Closed()
      ensures buffer == old(buffer) || (!noalloc && fresh(buffer))
    {
      CloseBraceText(format, outer);
      ok := Ensure(if format then depth + 1 else 2);
      if ok {
        FinishClose(depth - 1);
      }
    }

    method FinishClose(count: nat)
      requires Valid() && Settled() && offset + |CloseBrace(format, count)| + 2 <= length
      modifies this`text, buffer
      ensures Valid() && text == old(text) + CloseBrace(format, count) && Closed()
    {
      CloseBraceText(format, count);
      var end := WriteClose(count);
      Close(end, CloseBrace(format, count));
    }

    method WriteClose(count: nat) returns (end: nat)
      requires Valid() && Settled() && offset + |CloseBrace(format, count)| <= buffer.Length
      modifies buffer
      ensures end == offset + |CloseBrace(format, count)|
      ensures buffer[..end] == old(buffer[..offset]) + CloseBrace(format, count)
    {
      CloseBraceText(format, count);
      end := offset;
      if format {
        WriteTabs(offset, count);
        end := offset + count;
      }
      Write(end, "}");
      end := end + 1;
    }
  }

  // ------------------------------------------------------------ entry points

  /** print: a first buffer of 256 bytes that counts as empty, so the first Ensure replaces it. */
  method Print(v: Json, format: bool) returns (printed: Option<string>)
    requires Printable(v)
    ensures printed == if |Render(v, format, 0)| + Slack(v) <= INT_MAX then Some(Render(v, format, 0)) else None
  {
    var first := new char[256];
    var buffer := new PrintBuffer(first, 0, false, format);
    var ok := buffer.PrintValue(v);
    if !ok {
      return None;
    }
    buffer.UpdateOffset();
    assert buffer.buffer[..buffer.offset] == buffer.text == Render(v, format, 0);
    printed := Some(buffer.buffer[..buffer.offset]);
  }

  /** cJSON_PrintBuffered: a buffer of the caller's size, which may grow. */
  method PrintBuffered(v: Json, prebuffer: int, format: bool) returns (printed: Option<array<char>>)
    requires Printable(v) && prebuffer <= INT_MAX
    ensures printed.Some? <==> 0 <= prebuffer && |Render(v, format, 0)| + Slack(v) <= INT_MAX
    ensures printed.Some? ==> IsCString(printed.value, Render(v, format, 0))
  {
    if prebuffer < 0 {
      return None;
    }
    var first := new char[prebuffer];
    var buffer := new PrintBuffer(first, prebuffer, false, format);
    var ok := buffer.PrintValue(v);
    return if ok then Some(buffer.buffer) else None;
  }

  /** cJSON_PrintPreallocated: `size` bytes of the caller's buffer and no more. */
  method PrintPreallocated(v: Json, buf: array<char>, size: int, format: bool) returns (ok: bool)
    requires Printable(v) && size <= INT_MAX && size <= buf.Length
    modifies buf
    ensures ok <==> 0 <= size && |Render(v, format, 0)| + Slack(v) <= size
    ensures ok ==> IsCString(buf, Render(v, format, 0))
  {
    if size < 0 {
      return false;
    }
    var buffer := new PrintBuffer(buf, size, true, format);
    ok := buffer.PrintValue(v);
  }

  ghost predicate IsCString(a: array<char>, text: string)
    reads a
  {
    |text| < a.Length && a[..|text|] == text && a[|text|] == '\0'
  }

  /** What is printed and parsed again is the same value, but for null in place of infinities and NaN, if its text fits an int and its nesting the limit. */
  method PrintThenParse(v: Json, format: bool, limit: nat) returns (parsed: Option<Json>)
    requires Printable(v)
    ensures parsed == if |Render(v, format, 0)| + Slack(v) <= INT_MAX && Nesting(v) <= limit then Some(Recovered(v)) else None
  {
    var printed := Print(v, format);
    if printed.None? {
      return None;
    }
    PrintParseRoundTrip(v, format, true, limit);
    var ok, item, _ := ParseWithOpts(printed.value, true, limit);
    return if ok then Some(item) else None;
  }

  // -------------------------------------------------- how the pieces fit together

  ghost function MemberText(name: string, value: string, rest: string, last: bool, format: bool, d: nat): string {
    Indent(format, d) + (Quote(name) + (Colon(format) + (value + (MemberSeparator(format, last) + rest))))
  }

  lemma MembersText(members: Members, format: bool, d: nat)
    requires members.Member?
    ensures RenderMembers(members, format, d)
         == MemberText(members.name, Render(members.value, format, d), RenderMembers(members.next, format, d),
                       members.next.NoMembers?, format, d)
  {
  }

  /** A member's print without the members behind it. */
  ghost function OneMember(current: Members, format: bool, d: nat): string
    requires current.Member?
  {
    MemberText(current.name, Render(current.value, format, d), "", current.next.NoMembers?, format, d)
  }

  ghost function OneItem(current: Items, format: bool, d: nat): string
    requires current.Item?
  {
    Render(current.value, format, d) + ItemSeparator(format, current.next.NoItems?)
  }

  lemma ItemForward(done: string, current: Items, format: bool, d: nat)
    requires current.Item?
    ensures done + RenderItems(current, format, d) == done + OneItem(current, format, d) + RenderItems(current.next, format, d)
    ensures |RenderItems(current, format, d)| == |OneItem(current, format, d)| + |RenderItems(current.next, format, d)|
  {
    var v, sep := Render(current.value, format, d), ItemSeparator(format, current.next.NoItems?);
    Assoc(v, sep, RenderItems(current.next, format, d));
    Assoc(done, v + sep, RenderItems(current.next, format, d));
  }

  lemma ArrayParts(before: string, items: Items, format: bool, outer: nat, inner: nat)
    requires inner == outer + 1
    ensures before + "[" + RenderItems(items, format, inner) + "]" == before + Render(Array(items), format, outer)
    ensures |Render(Array(items), format, outer)| == |RenderItems(items, format, inner)| + 2
  {
    Assoc(before, "[", RenderItems(items, format, inner));
    Assoc(before, "[" + RenderItems(items, format, inner), "]");
  }

  lemma MemberForward(done: string, current: Members, format: bool, d: nat)
    requires current.Member?
    ensures done + RenderMembers(current, format, d)
         == done + OneMember(current, format, d) + RenderMembers(current.next, format, d)
    ensures |RenderMembers(current, format, d)| == |OneMember(current, format, d)| + |RenderMembers(current.next, format, d)|
  {
    MembersText(current, format, d);
    MemberTextSplit(current.name, Render(current.value, format, d), RenderMembers(current.next, format, d),
                    current.next.NoMembers?, format, d);
    Assoc(done, OneMember(current, format, d), RenderMembers(current.next, format, d));
  }

  lemma MemberTextSplit(name: string, value: string, rest: string, last: bool, format: bool, d: nat)
    ensures MemberText(name, value, rest, last, format, d) == MemberText(name, value, "", last, format, d) + rest
  {
    var a, b, c, e := Indent(format, d), Quote(name), Colon(format), MemberSeparator(format, last);
    FivePieces(a, b, c, value, e, rest);
  }

  lemma FivePieces(a: string, b: string, c: string, v: string, e: string, rest: string)
    ensures a + (b + (c + (v + (e + rest)))) == a + (b + (c + (v + (e + "")))) + rest
  {
    Assoc(a, b + (c + (v + (e + ""))), rest);
    Assoc(b, c + (v + (e + "")), rest);
    Assoc(c, v + (e + ""), rest);
    Assoc(v, e + "", rest);
    Assoc(e, "", rest);
    assert "" + rest == rest;
  }

  /** A member's print up to its value, and from it on. */
  ghost function NamePart(name: string, format: bool, d: nat): string {
    Indent(format, d) + (Quote(name) + Colon(format))
  }

  ghost function RestPart(current: Members, format: bool, d: nat): string
    requires current.Member?
  {
    Render(current.value, format, d) + MemberSeparator(format, current.next.NoMembers?)
  }

  lemma NamePieces(before: string, name: string, format: bool, d: nat)
    ensures before + Indent(format, d) + Quote(name) + Colon(format) == before + NamePart(name, format, d)
    ensures |NamePart(name, format, d)| == |Indent(format, d)| + |Quote(name)| + |Colon(format)|
  {
    Assoc(before + Indent(format, d), Quote(name), Colon(format));
    Assoc(before, Indent(format, d), Quote(name) + Colon(format));
  }

  lemma MemberPieces(before: string, current: Members, format: bool, d: nat)
    requires current.Member?
    ensures before + NamePart(current.name, format, d) + RestPart(current, format, d) == before + OneMember(current, format, d)
    ensures |OneMember(current, format, d)| == |NamePart(current.name, format, d)| + |RestPart(current, format, d)|
  {
    TwoParts(Indent(format, d), Quote(current.name), Colon(format), Render(current.value, format, d),
             MemberSeparator(format, current.next.NoMembers?));
    Assoc(before, NamePart(current.name, format, d), RestPart(current, format, d));
  }

  lemma TwoParts(a: string, b: string, c: string, v: string, e: string)
    ensures (a + (b + c)) + (v + e) == a + (b + (c + (v + (e + ""))))
  {
    assert e + "" == e;
    Assoc(a, b + c, v + e);
    Assoc(b, c, v + e);
  }

  lemma ObjectParts(before: string, members: Members, format: bool, outer: nat, inner: nat)
    requires inner == outer + 1
    ensures before + OpenBrace(format) + RenderMembers(members, format, inner) + CloseBrace(format, outer)
         == before + Render(Object(members), format, outer)
    ensures |Render(Object(members), format, outer)|
         == |OpenBrace(format)| + |RenderMembers(members, format, inner)| + |CloseBrace(format, outer)|
    ensures |CloseBrace(format, outer)| >= 1
  {
    Assoc(before, OpenBrace(format), RenderMembers(members, format, inner));
    Assoc(before, OpenBrace(format) + RenderMembers(members, format, inner), CloseBrace(format, outer));
  }

  lemma CloseBraceText(format: bool, d: nat)
    ensures CloseBrace(format, d) == (if format then Tabs(d) else "") + "}" && '\0' !in CloseBrace(format, d)
    ensures |CloseBrace(format, d)| == if format then d + 1 else 1
  {
    TabsGrow(d);
    TabsNulFree(d);
  }

  lemma QuoteNulFree(s: string)
    requires '\0' !in s
    ensures '\0' !in Quote(s) && |Quote(s)| == |Escape(s)| + 2
  {
    EscapeNulFree(s);
  }

  lemma EscapeForward(done: string, s: string, i: nat)
    requires i < |s|
    ensures done + Escape(s[i..]) == done + EscapeChar(s[i]) + Escape(s[i + 1..])
    ensures |Escape(s[i..])| == |EscapeChar(s[i])| + |Escape(s[i + 1..])|
  {
    assert s[i..][1..] == s[i + 1..];
    Assoc(done, EscapeChar(s[i]), Escape(s[i + 1..]));
  }

  lemma QuoteParts(before: string, s: string)
    ensures before + "\"" + Escape(s) + "\"" == before + Quote(s)
  {
  }

  lemma {:induction false} NothingEscaped(s: string)
    requires |Escape(s)| == |s|
    ensures Escape(s) == s
  {
    if s != "" {
      EscapeLonger(s[1..]);
      NothingEscaped(s[1..]);
    }
  }

  lemma {:induction false} EscapeLonger(s: string)
    ensures |Escape(s)| >= |s|
  {
    if s != "" {
      EscapeLonger(s[1..]);
    }
  }

  lemma {:induction false} TabsGrow(n: nat)
    ensures |Tabs(n)| == n && Tabs(n + 1) == Tabs(n) + "\t"
  {
    if n > 0 {
      TabsGrow(n - 1);
      assert Tabs(n + 1) == "\t" + Tabs(n);
    }
  }
}
