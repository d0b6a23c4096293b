/**
 Minifying in place: white space and comments go, everything else is moved towards the front of the same buffer.
 */
module JsonMinify {
  import opened Common
  import opened JsonGrammar

  predicate Begins(s: string, p: nat, first: char, second: char) {
    p + 1 < |s| && s[p] == first && s[p + 1] == second
  }

  /** Where a line comment ends: at its line break or with the text. */
  function LineEnd(s: string, p: nat): (q: nat)
    requires p <= |s|
    ensures p <= q <= |s|
    decreases |s| - p
  {
    if p == |s| || s[p] == '\n' then p else LineEnd(s, p + 1)
  }

  /** Behind the end of a block comment, if it ends. */
  function BlockEnd(s: string, p: nat): (q: Option<nat>)
    requires p <= |s|
    ensures q.Some? ==> p + 1 < q.value <= |s|
    decreases |s| - p
  {
    if p == |s| then None
    else if Begins(s, p, '*', '/') then Some(p + 2)
    else BlockEnd(s, p + 1)
  }

  /** Behind the closing quote of a string whose characters start at p, if it is closed. */
  function StringEnd(s: string, p: nat): (q: Option<nat>)
    requires p <= |s|
    ensures q.Some? ==> p < q.value <= |s|
    decreases |s| - p
  {
    if p == |s| then None
    else if s[p] == '\"' then Some(p + 1)
    else if s[p] != '\\' then StringEnd(s, p + 1)
    else if p + 1 == |s| then None
    else StringEnd(s, p + 2)
  }

  function Prefix(kept: string, rest: Option<string>): Option<string> {
    match rest
    case None => None
    case Some(t) => Some(kept + t)
  }

  /**
   What is left of the text from p on. None: a string or a block comment is open at the end, and the code runs past
   the terminator.
   */
  function Minified(s: string, p: nat): Option<string>
    requires p <= |s|
    decreases |s| - p
  {
    if p == |s| then Some("")
    else if IsSpace(s[p]) then Minified(s, p + 1)
    else if Begins(s, p, '/', '/') then Minified(s, LineEnd(s, p + 1))
    else if Begins(s, p, '/', '*') then
      match BlockEnd(s, p)
      case None => None
      case Some(q) => Minified(s, q)
    else if s[p] == '\"' then
      match StringEnd(s, p + 1)
      case None => None
      case Some(q) => Prefix(s[p..q], Minified(s, q))
    else Prefix([s[p]], Minified(s, p + 1))
  }

  // ------------------------------------------------------------- in place

  /** The unread part of the buffer is still the end of the original text, with its NUL. */
  ghost predicate Unread(a: array<char>, s: string, json: nat)
    reads a
  {
    && json <= |s| < a.Length && a[|s|] == '\0' && '\0' !in s
    && forall i :: json <= i < |s| ==> a[i] == s[i]
  }

  method SkipLineComment(a: array<char>, ghost s: string, start: nat) returns (json: nat)
    requires Unread(a, s, start) && start < |s| && s[start] == '/'
    ensures json == LineEnd(s, start + 1)
  {
    json := start;
    while a[json] != '\0' && a[json] != '\n'
      invariant start <= json <= |s| && LineEnd(s, json) == LineEnd(s, start)
      decreases |s| - json
    {
      json := json + 1;
    }
  }

  /** To the end of a block comment; without one, to the terminator and two characters on. */
  method SkipBlockComment(a: array<char>, ghost s: string, start: nat) returns (json: nat)
    requires Unread(a, s, start)
    ensures match BlockEnd(s, start)
            case Some(q) => json == q
            case None => json == |s| + 2
  {
    json := start;
    while a[json] != '\0' && !(a[json] == '*' && a[json + 1] == '/')
      invariant start <= json <= |s| && BlockEnd(s, json) == BlockEnd(s, start)
      decreases |s| - json
    {
      json := json + 1;
    }
    json := json + 2;
  }

  /** One character, or the terminator, moved to the front; nothing unread is overwritten. */
  method Move(a: array<char>, ghost s: string, into: nat, json: nat)
    requires into <= json <= |s| && Unread(a, s, json)
    modifies a
    ensures json < |s| ==> a[..into + 1] == old(a[..into]) + [s[json]] && Unread(a, s, json + 1)
  {
    a[into] := a[json];
  }

  /** The characters of a string literal, from its opening quote; if it is not closed, past the terminator. */
  method MoveString(a: array<char>, ghost s: string, n: nat, into0: nat, json0: nat) returns (into: nat, json: nat)
    requires n == |s| && into0 <= json0 < |s| && Unread(a, s, json0) && s[json0] == '\"'
    modifies a
    ensures match StringEnd(s, json0 + 1)
            case None => json > |s|
            case Some(q) =>
              && json == q && into - into0 == json - json0 && json0 < json
              && a[..into] == old(a[..into0]) + s[json0..json] && Unread(a, s, json)
  {
    ghost var before := a[..into0];
    Move(a, s, into0, json0);
    into, json := into0 + 1, json0 + 1;
    while json <= n && a[json] != '\0' && a[json] != '\"'
      invariant json0 < json && (json > |s| ==> StringEnd(s, json0 + 1).None?)
      invariant json <= |s| ==>
                  && into - into0 == json - json0 && Unread(a, s, json) && a[..into] == before + s[json0..json]
                  && StringEnd(s, json) == StringEnd(s, json0 + 1)
      decreases |s| - json
    {
      ghost var at := json;
      into, json := MoveCharacter(a, s, into, json);
      if json <= n {
        SliceGrows(before, s, json0, at, json);
      }
    }
    if json > n {
      return;
    }
    Move(a, s, into, json);
    if json < n {
      SliceGrows(before, s, json0, json, json + 1);
    }
    into, json := into + 1, json + 1;
  }

  /** One character of a string, or a backslash with what it escapes, be it the terminator. */
  method MoveCharacter(a: array<char>, ghost s: string, into0: nat, json0: nat) returns (into: nat, json: nat)
    requires into0 <= json0 < |s| && Unread(a, s, json0) && s[json0] != '\"'
    modifies a
    ensures json0 < json && into - into0 == json - json0
    ensures json > |s| ==> StringEnd(s, json0).None?
    ensures json <= |s| ==>
              && StringEnd(s, json) == StringEnd(s, json0)
              && a[..into] == old(a[..into0]) + s[json0..json] && Unread(a, s, json)
  {
    into, json := into0, json0;
    if a[json] == '\\' {
      Move(a, s, into, json);
      into, json := into + 1, json + 1;
    }
    Move(a, s, into, json);
    into, json := into + 1, json + 1;
  }

  lemma SliceGrows(before: string, s: string, i: nat, j: nat, k: nat)
    requires i <= j <= k <= |s|
    ensures before + s[i..j] + s[j..k] == before + s[i..k]
  {
  }

  /** One turn of the main loop: what is left shrinks, or the reader has left the text and the text was open. */
  method MinifyStep(a: array<char>, ghost s: string, n: nat, into0: nat, json0: nat) returns (into: nat, json: nat)
    requires n == |s| && into0 <= json0 < |s| && Unread(a, s, json0)
    modifies a
    ensures json0 < json
    ensures json > |s| ==> Minified(s, json0).None?
    ensures json <= |s| ==>
              && into <= json && Unread(a, s, json)
              && Prefix(a[..into], Minified(s, json)) == Prefix(old(a[..into0]), Minified(s, json0))
  {
    into, json := into0, json0;
    if a[json] == ' ' || a[json] == '\t' || a[json] == '\r' || a[json] == '\n' {
      json := json + 1;
    } else if a[json] == '/' && a[json + 1] == '/' {
      json := SkipLineComment(a, s, json);
    } else if a[json] == '/' && a[json + 1] == '*' {
      json := SkipBlockComment(a, s, json);
    } else if a[json] == '\"' {
      into, json := MoveString(a, s, n, into, json);
      if json <= n {
        PrefixTwice(old(a[..into0]), s[json0..json], Minified(s, json));
      }
    } else {
      Move(a, s, into, json);
      into, json := into + 1, json + 1;
      PrefixTwice(old(a[..into0]), [s[json0]], Minified(s, json));
    }
  }

  lemma PrefixTwice(a: string, b: string, rest: Option<string>)
    ensures Prefix(a, Prefix(b, rest)) == Prefix(a + b, rest)
  {
    if rest.Some? {
      assert a + (b + rest.value) == a + b + rest.value;
    }
  }

  /**
   cJSON_Minify on any text. The code itself does not know the length n: where the reader goes past the terminator the
   model stops and reports the overrun, the next thing the code does being to read at that position. It happens exactly
   on the texts that end inside a string or a block comment; on all others the buffer becomes the minified text.
   */
  method Minify(a: array<char>, ghost s: string, n: nat) returns (json: nat)
    requires n == |s| && Unread(a, s, 0)
    modifies a
    ensures json > |s| <==> !Closed(s, 0, Plain)
    ensures json <= |s| ==> Minified(s, 0).Some?
    ensures json <= |s| ==>
              var r := Minified(s, 0).value;
              |r| < a.Length && a[..|r|] == r && a[|r|] == '\0'
  {
    SafeExactlyIfClosed(s, 0);
    json := 0;
    var into: nat := 0;
    ghost var whole := Minified(s, 0);
    PrefixNothing(a[..into], whole);
    while json <= n && a[json] != '\0'
      invariant json <= |s| ==> into <= json && Unread(a, s, json) && Prefix(a[..into], Minified(s, json)) == whole
      invariant json > |s| ==> whole == None
      decreases |s| - json
    {
      into, json := MinifyStep(a, s, n, into, json);
    }
    if json <= n {
      PrefixNothing(a[..into], whole);
      a[into] := '\0';
    }
  }

  /** Three texts that take the reader past the terminator, and one that does not although it looks alike. */
  lemma OpenTexts()
    ensures !Closed("\"", 0, Plain) && !Closed("/*", 0, Plain) && !Closed("\"\\", 0, Plain) && Closed("/*/", 0, Plain)
  {
    assert !Closed("\"", 1, InString);
    assert !Closed("/*", 2, InBlock);
    assert !Closed("/*", 1, InBlock);
    assert !Closed("\"\\", 1, InString);
    assert Closed("/*/", 3, Plain);
    assert Closed("/*/", 1, InBlock);
  }

  lemma PrefixNothing(t: string, rest: Option<string>)
    ensures t == "" ==> Prefix(t, rest) == rest
    ensures Prefix(t, Some("")) == Some(t)
  {
    assert t + "" == t;
    if rest.Some? {
      assert "" + rest.value == rest.value;
    }
  }

  // ------------------------------------------------------ which texts are safe

  /** What a reader is in the middle of. */
  datatype Mode = Plain | InLine | InBlock | InString

  /** A character-by-character reading of the text from p on ends outside of strings and block comments. */
  predicate Closed(s: string, p: nat, mode: Mode)
    requires p <= |s|
    decreases |s| - p, if mode == InLine then 1 else 0
  {
    if p == |s| then mode == Plain || mode == InLine
    else
      match mode
      case Plain =>
        if Begins(s, p, '/', '/') then Closed(s, p + 1, InLine)
        else if Begins(s, p, '/', '*') then Closed(s, p + 1, InBlock)
        else Closed(s, p + 1, if s[p] == '\"' then InString else Plain)
      case InLine => if s[p] == '\n' then Closed(s, p, Plain) else Closed(s, p + 1, InLine)
      case InBlock => if Begins(s, p, '*', '/') then Closed(s, p + 2, Plain) else Closed(s, p + 1, InBlock)
      case InString =>
        if s[p] == '\"' then Closed(s, p + 1, Plain)
        else if s[p] != '\\' then Closed(s, p + 1, InString)
        else p + 1 < |s| && Closed(s, p + 2, InString)
  }

  lemma {:induction false} LineCloses(s: string, p: nat)
    requires p <= |s|
    ensures Closed(s, p, InLine) <==> Closed(s, LineEnd(s, p), Plain)
    decreases |s| - p
  {
    if p < |s| && s[p] != '\n' {
      LineCloses(s, p + 1);
    }
  }

  lemma {:induction false} BlockCloses(s: string, p: nat)
    requires p <= |s|
    ensures Closed(s, p, InBlock) <==> BlockEnd(s, p).Some? && Closed(s, BlockEnd(s, p).value, Plain)
    decreases |s| - p
  {
    if p < |s| && !Begins(s, p, '*', '/') {
      BlockCloses(s, p + 1);
    }
  }

  lemma {:induction false} StringCloses(s: string, p: nat)
    requires p <= |s|
    ensures Closed(s, p, InString) <==> StringEnd(s, p).Some? && Closed(s, StringEnd(s, p).value, Plain)
    decreases |s| - p
  {
    if p < |s| && s[p] == '\\' && p + 1 < |s| {
      StringCloses(s, p + 2);
    } else if p < |s| && s[p] != '\"' && s[p] != '\\' {
      StringCloses(s, p + 1);
    }
  }

  /** Minifying stays inside the text exactly if no string and no block comment is open at its end. */
  lemma {:induction false} SafeExactlyIfClosed(s: string, p: nat)
    requires p <= |s|
    ensures Minified(s, p).Some? <==> Closed(s, p, Plain)
    decreases |s| - p
  {
    if p == |s| {
    } else if Begins(s, p, '/', '/') {
      LineCloses(s, p + 1);
      SafeExactlyIfClosed(s, LineEnd(s, p + 1));
    } else if Begins(s, p, '/', '*') {
      BlockCloses(s, p + 1);
      if BlockEnd(s, p + 1).Some? {
        SafeExactlyIfClosed(s, BlockEnd(s, p + 1).value);
      }
    } else if s[p] == '\"' {
      StringCloses(s, p + 1);
      if StringEnd(s, p + 1).Some? {
        SafeExactlyIfClosed(s, StringEnd(s, p + 1).value);
      }
    } else {
      SafeExactlyIfClosed(s, p + 1);
    }
  }
}
