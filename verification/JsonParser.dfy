/**
 The recursive-descent parser as functions of the text and the offset, with the offset a failure leaves behind.

 The text is the whole C string with its terminating NUL. The parser treats every character up to and including the
 space as white space, the NUL too, and steps back when it has skipped to the end of the buffer.
 */
module JsonParser {
  import opened Common
  import opened Json
  import opened JsonStrings
  import opened JsonNumbers
  import opened NumberFormat

  datatype Parsed<T> = Ok(value: T, next: nat) | Fail(at: nat)

  ghost predicate Terminated(s: string) {
    |s| > 0 && s[|s| - 1] == '\0'
  }

  /** The skipping loop alone. */
  function SkipBlank(s: string, p: nat): (q: nat)
    requires p <= |s|
    ensures p <= q <= |s|
    ensures q < |s| ==> s[q] > ' '
    decreases |s| - p
  {
    if p < |s| && s[p] <= ' ' then SkipBlank(s, p + 1) else p
  }

  /** buffer_skip_whitespace: never leaves the buffer. */
  function SkipWs(s: string, p: nat): (q: nat)
    requires p <= |s| && |s| > 0
    ensures q < |s| && (p < |s| ==> p <= q)
  {
    var q := SkipBlank(s, p);
    if q == |s| then q - 1 else q
  }

  function ParseString(s: string, p: nat): (r: Parsed<string>)
    requires p < |s|
    ensures r.Ok? ==> p < r.next <= |s|
  {
    if s[p] != '\"' then Fail(p + 1)
    else
      match Scan(s, p + 1)
      case NoEnd => Fail(p + 1)
      case End(end, _) =>
        var u := Unescape(s, p + 1, end);
        if u.ok then Ok(CStr(u.bytes), end + 1) else Fail(u.at)
  }

  function ParseNumber(s: string, p: nat): (r: Parsed<Json>)
    requires p <= |s|
    ensures r.Ok? ==> p < r.next <= |s|
  {
    match Strtod(NumberText(s, p))
    case NoConversion => Fail(p)
    case Converted(value, length) => Ok(Number(value), p + length)
  }

  function ParseScalar(s: string, p: nat): (r: Option<Parsed<Json>>)
    requires p < |s|
    ensures r.Some? && r.value.Ok? ==> p < r.value.next <= |s|
  {
    if At(s, p, "null") then Some(Ok(Null, p + 4))
    else if At(s, p, "false") then Some(Ok(False, p + 5))
    else if At(s, p, "true") then Some(Ok(True, p + 4))
    else if s[p] == '\"' then
      match ParseString(s, p)
      case Fail(at) => Some(Fail(at))
      case Ok(str, next) => Some(Ok(Str(str), next))
    else if s[p] == '-' || IsDigit(s[p]) then Some(ParseNumber(s, p))
    else None
  }

  /** A scalar is read without touching the terminator. */
  lemma ScalarInside(s: string, p: nat)
    requires Terminated(s) && p < |s| && ParseScalar(s, p).Some? && ParseScalar(s, p).value.Ok?
    ensures ParseScalar(s, p).value.next < |s|
  {
    var last := |s| - 1;
    if At(s, p, "null") {
      AtIndex(s, p, "null", 3);
    } else if At(s, p, "false") {
      AtIndex(s, p, "false", 4);
    } else if At(s, p, "true") {
      AtIndex(s, p, "true", 3);
    } else if s[p] != '\"' {
      RunInside(s, p, MAX_NUMBER_LENGTH);
    }
  }

  lemma {:induction false} RunInside(s: string, p: nat, limit: nat)
    requires Terminated(s) && p < |s|
    ensures p + RunLength(s, p, limit) < |s|
    decreases limit
  {
    if limit > 0 && IsNumberChar(s[p]) {
      RunInside(s, p + 1, limit - 1);
    }
  }

  function ParseValue(s: string, p: nat, depth: nat, limit: nat): (r: Parsed<Json>)
    requires Terminated(s) && p < |s|
    ensures r.Ok? ==> p < r.next < |s|
    decreases |s| - p, 2
  {
    match ParseScalar(s, p)
    case Some(r) => (if r.Ok? then ScalarInside(s, p); r else r)
    case None =>
      if s[p] == '[' then ParseArray(s, p, depth, limit)
      else if s[p] == '{' then ParseObject(s, p, depth, limit)
      else Fail(p)
  }

  function ParseArray(s: string, p: nat, depth: nat, limit: nat): (r: Parsed<Json>)
    requires Terminated(s) && p < |s| && s[p] == '['
    ensures r.Ok? ==> p < r.next < |s|
    decreases |s| - p, 1
  {
    if depth >= limit then Fail(p)
    else
      var q := SkipWs(s, p + 1);
      if s[q] == ']' then Ok(Array(NoItems), q + 1)
      else
        // step back to the character in front of the first element
        match ParseItems(s, q - 1, depth + 1, limit)
        case Fail(at) => Fail(at)
        case Ok(items, next) => if s[next] == ']' then Ok(Array(items), next + 1) else Fail(next)
  }

  /** The element loop, from the character in front of an element to the first character after the elements. */
  function ParseItems(s: string, p: nat, depth: nat, limit: nat): (r: Parsed<Items>)
    requires Terminated(s) && p + 1 < |s|
    ensures r.Ok? ==> p < r.next < |s|
    decreases |s| - p, 0
  {
    match ParseValue(s, SkipWs(s, p + 1), depth, limit)
    case Fail(at) => Fail(at)
    case Ok(v, next) =>
      var q := SkipWs(s, next);
      if s[q] == ',' then
        match ParseItems(s, q, depth, limit)
        case Fail(at) => Fail(at)
        case Ok(rest, end) => Ok(Item(v, rest), end)
      else Ok(Item(v, NoItems), q)
  }

  function ParseObject(s: string, p: nat, depth: nat, limit: nat): (r: Parsed<Json>)
    requires Terminated(s) && p < |s| && s[p] == '{'
    ensures r.Ok? ==> p < r.next < |s|
    decreases |s| - p, 1
  {
    if depth >= limit then Fail(p)
    else
      var q := SkipWs(s, p + 1);
      if s[q] == '}' then Ok(Object(NoMembers), q + 1)
      else
        match ParseMembers(s, q - 1, depth + 1, limit)
        case Fail(at) => Fail(at)
        case Ok(members, next) => if s[next] == '}' then Ok(Object(members), next + 1) else Fail(next)
  }

  /** A member's name and its colon, up to where its value starts. */
  function ParseName(s: string, p: nat): (r: Parsed<string>)
    requires Terminated(s) && p < |s|
    ensures r.Ok? ==> p < r.next < |s|
  {
    match ParseString(s, p)
    case Fail(at) => Fail(at)
    case Ok(name, afterName) =>
      var colon := SkipWs(s, afterName);
      if s[colon] == ':' then Ok(name, SkipWs(s, colon + 1)) else Fail(colon)
  }

  function ParseMembers(s: string, p: nat, depth: nat, limit: nat): (r: Parsed<Members>)
    requires Terminated(s) && p + 1 < |s|
    ensures r.Ok? ==> p < r.next < |s|
    decreases |s| - p, 0
  {
    match ParseName(s, SkipWs(s, p + 1))
    case Fail(at) => Fail(at)
    case Ok(name, valueAt) =>
      match ParseValue(s, valueAt, depth, limit)
      case Fail(at) => Fail(at)
      case Ok(v, next) =>
        var q := SkipWs(s, next);
        if s[q] == ',' then
          match ParseMembers(s, q, depth, limit)
          case Fail(at) => Fail(at)
          case Ok(rest, end) => Ok(Member(name, v, rest), end)
        else Ok(Member(name, v, NoMembers), q)
  }

  /** cJSON_ParseWithOpts on a C string: the value, and the position the parse ended or failed at. */
  function Parse(text: string, requireNullTerminated: bool, limit: nat): (r: Parsed<Json>)
    requires '\0' !in text
  {
    var s := text + "\0";
    match ParseValue(s, SkipWs(s, 0), 0, limit)
    case Fail(at) => Fail(if at < |s| then at else |s| - 1)
    case Ok(v, next) =>
      if requireNullTerminated then
        var q := SkipWs(s, next);
        if s[q] == '\0' then Ok(v, q) else Fail(q)
      else Ok(v, next)
  }

  /** What ParseArray makes of the result of its element loop. */
  lemma ArrayIs(s: string, p: nat, depth: nat, limit: nat)
    returns (r: Parsed<Json>, empty: bool, start: nat, inner: nat, list: Parsed<Items>)
    requires Terminated(s) && p < |s| && s[p] == '[' && depth < limit
    ensures r == ParseArray(s, p, depth, limit) && inner == depth + 1 && p + 1 < |s|
    ensures var q := SkipWs(s, p + 1);
            empty == (s[q] == ']') && start == if empty then q else q - 1
    ensures empty ==> r == Ok(Array(NoItems), start + 1)
    ensures !empty ==> start + 1 < |s| && list == ParseItems(s, start, inner, limit)
    ensures !empty && list.Fail? ==> r == Fail(list.at)
    ensures !empty && list.Ok? ==>
              list.next < |s| && r == if s[list.next] == ']' then Ok(Array(list.value), list.next + 1) else Fail(list.next)
  {
    var q := SkipWs(s, p + 1);
    r, empty, inner, list := ParseArray(s, p, depth, limit), s[q] == ']', depth + 1, Fail(0);
    start := if empty then q else q - 1;
    if !empty {
      list := ParseItems(s, start, inner, limit);
    }
  }

  lemma ObjectIs(s: string, p: nat, depth: nat, limit: nat)
    returns (r: Parsed<Json>, empty: bool, start: nat, inner: nat, list: Parsed<Members>)
    requires Terminated(s) && p < |s| && s[p] == '{' && depth < limit
    ensures r == ParseObject(s, p, depth, limit) && inner == depth + 1 && p + 1 < |s|
    ensures var q := SkipWs(s, p + 1);
            empty == (s[q] == '}') && start == if empty then q else q - 1
    ensures empty ==> r == Ok(Object(NoMembers), start + 1)
    ensures !empty ==> start + 1 < |s| && list == ParseMembers(s, start, inner, limit)
    ensures !empty && list.Fail? ==> r == Fail(list.at)
    ensures !empty && list.Ok? ==>
              list.next < |s| && r == if s[list.next] == '}' then Ok(Object(list.value), list.next + 1) else Fail(list.next)
  {
    var q := SkipWs(s, p + 1);
    r, empty, inner, list := ParseObject(s, p, depth, limit), s[q] == '}', depth + 1, Fail(0);
    start := if empty then q else q - 1;
    if !empty {
      list := ParseMembers(s, start, inner, limit);
    }
  }

  /** What ParseItems makes of its first value and of the items behind a comma. */
  lemma ItemsAre(s: string, p: nat, depth: nat, limit: nat, v: Json, next: nat)
    returns (r: Parsed<Items>, q: nat, more: Parsed<Items>)
    requires Terminated(s) && p + 1 < |s|
    requires ParseValue(s, SkipWs(s, p + 1), depth, limit) == Ok(v, next)
    ensures r == ParseItems(s, p, depth, limit) && q == SkipWs(s, next)
    ensures s[q] == ',' ==> q + 1 < |s| && more == ParseItems(s, q, depth, limit)
    ensures r == if s[q] != ',' then Ok(Item(v, NoItems), q)
                 else if more.Fail? then Fail(more.at) else Ok(Item(v, more.value), more.next)
  {
    r, q, more := ParseItems(s, p, depth, limit), SkipWs(s, next), Fail(0);
    if s[q] == ',' {
      more := ParseItems(s, q, depth, limit);
    }
  }

  /** What ParseMembers makes of a member and of those behind it. */
  lemma MembersAre(s: string, p: nat, depth: nat, limit: nat, name: string, valueAt: nat, v: Json, next: nat)
    returns (r: Parsed<Members>, q: nat, more: Parsed<Members>)
    requires Terminated(s) && p + 1 < |s|
    requires ParseName(s, SkipWs(s, p + 1)) == Ok(name, valueAt)
    requires ParseValue(s, valueAt, depth, limit) == Ok(v, next)
    ensures r == ParseMembers(s, p, depth, limit) && q == SkipWs(s, next)
    ensures s[q] == ',' ==> q + 1 < |s| && more == ParseMembers(s, q, depth, limit)
    ensures r == if s[q] != ',' then Ok(Member(name, v, NoMembers), q)
                 else if more.Fail? then Fail(more.at) else Ok(Member(name, v, more.value), more.next)
  {
    r, q, more := ParseMembers(s, p, depth, limit), SkipWs(s, next), Fail(0);
    if s[q] == ',' {
      more := ParseMembers(s, q, depth, limit);
    }
  }

  // ------------------------------------------------------------ totality

  /** Whatever the text, a value that was read is nested within the limit, and of doubles and C strings. */
  lemma {:induction false} NeverBeyondLimit(s: string, p: nat, depth: nat, limit: nat) returns (r: Parsed<Json>)
    requires Terminated(s) && p < |s| && depth <= limit
    ensures r == ParseValue(s, p, depth, limit)
    ensures r.Ok? ==> depth + Nesting(r.value) <= limit && Printable(r.value)
    decreases |s| - p, 2
  {
    r := ParseValue(s, p, depth, limit);
    if ParseScalar(s, p).Some? {
      if r.Ok? {
        ScalarPrintable(s, p);
      }
    } else if depth < limit {
      if s[p] == '[' {
        r := ArrayWithinLimit(s, p, depth, limit);
      } else if s[p] == '{' {
        r := ObjectWithinLimit(s, p, depth, limit);
      }
    }
  }

  lemma ScalarPrintable(s: string, p: nat)
    requires p < |s| && ParseScalar(s, p).Some? && ParseScalar(s, p).value.Ok?
    ensures var v := ParseScalar(s, p).value.value; Printable(v) && Nesting(v) == 0
  {
    var v := ParseScalar(s, p).value.value;
    if v.Number? {
      NumberHolds(s, p);
    }
  }

  lemma NumberHolds(s: string, p: nat)
    requires p <= |s| && ParseNumber(s, p).Ok?
    ensures var v := ParseNumber(s, p).value; v.Number? && Holds(v.d)
  {
  }

  lemma {:induction false} ArrayWithinLimit(s: string, p: nat, depth: nat, limit: nat) returns (r: Parsed<Json>)
    requires Terminated(s) && p < |s| && s[p] == '[' && depth < limit
    ensures r == ParseArray(s, p, depth, limit)
    ensures r.Ok? ==> depth + Nesting(r.value) <= limit && Printable(r.value)
    decreases |s| - p, 1
  {
    var empty, start, inner, list;
    r, empty, start, inner, list := ArrayIs(s, p, depth, limit);
    if !empty {
      list := ItemsWithinLimit(s, start, inner, limit);
    }
  }

  lemma {:induction false} ObjectWithinLimit(s: string, p: nat, depth: nat, limit: nat) returns (r: Parsed<Json>)
    requires Terminated(s) && p < |s| && s[p] == '{' && depth < limit
    ensures r == ParseObject(s, p, depth, limit)
    ensures r.Ok? ==> depth + Nesting(r.value) <= limit && Printable(r.value)
    decreases |s| - p, 1
  {
    var empty, start, inner, list;
    r, empty, start, inner, list := ObjectIs(s, p, depth, limit);
    if !empty {
      list := MembersWithinLimit(s, start, inner, limit);
    }
  }

  lemma {:induction false} ItemsWithinLimit(s: string, p: nat, depth: nat, limit: nat) returns (r: Parsed<Items>)
    requires Terminated(s) && p + 1 < |s| && depth <= limit
    ensures r == ParseItems(s, p, depth, limit)
    ensures r.Ok? ==> depth + ItemsNesting(r.value) <= limit && PrintableItems(r.value)
    decreases |s| - p, 0
  {
    var v := NeverBeyondLimit(s, SkipWs(s, p + 1), depth, limit);
    if v.Fail? {
      r := Fail(v.at);
    } else if s[SkipWs(s, v.next)] == ',' {
      var rest := ItemsWithinLimit(s, SkipWs(s, v.next), depth, limit);
      r := if rest.Fail? then Fail(rest.at) else Ok(Item(v.value, rest.value), rest.next);
    } else {
      r := Ok(Item(v.value, NoItems), SkipWs(s, v.next));
    }
  }

  lemma {:induction false} MembersWithinLimit(s: string, p: nat, depth: nat, limit: nat) returns (r: Parsed<Members>)
    requires Terminated(s) && p + 1 < |s| && depth <= limit
    ensures r == ParseMembers(s, p, depth, limit)
    ensures r.Ok? ==> depth + MembersNesting(r.value) <= limit && PrintableMembers(r.value)
    decreases |s| - p, 0
  {
    var name := ParseName(s, SkipWs(s, p + 1));
    if name.Fail? {
      r := Fail(name.at);
    } else {
      var v := NeverBeyondLimit(s, name.next, depth, limit);
      if v.Fail? {
        r := Fail(v.at);
      } else if s[SkipWs(s, v.next)] == ',' {
        var rest := MembersWithinLimit(s, SkipWs(s, v.next), depth, limit);
        r := if rest.Fail? then Fail(rest.at) else Ok(Member(name.value, v.value, rest.value), rest.next);
      } else {
        r := Ok(Member(name.value, v.value, NoMembers), SkipWs(s, v.next));
      }
    }
  }
}
