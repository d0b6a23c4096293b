/**
 JSON values as cJSON holds them: items with a `child` list linked by `next`. And the text the printer gives them,
 as a function: the specification the print buffer refines.
 */
module Json {
  import opened JsonStrings
  import opened Doubles
  import opened NumberFormat

  datatype Json =
    | Null
    | False
    | True
    | Number(d: Double)
    | Str(s: string)
    | Array(items: Items)
    | Object(members: Members)

  /** The child list of an array. */
  datatype Items = NoItems | Item(value: Json, next: Items)

  /** The child list of an object; each child carries its name. */
  datatype Members = NoMembers | Member(name: string, value: Json, next: Members)

  function Max(a: nat, b: nat): nat { if a >= b then a else b }

  /** How deeply arrays and objects are nested. */
  function Nesting(v: Json): nat {
    match v
    case Array(items) => 1 + ItemsNesting(items)
    case Object(members) => 1 + MembersNesting(members)
    case _ => 0
  }

  function ItemsNesting(items: Items): nat {
    match items
    case NoItems => 0
    case Item(v, next) => Max(Nesting(v), ItemsNesting(next))
  }

  function MembersNesting(members: Members): nat {
    match members
    case NoMembers => 0
    case Member(_, v, next) => Max(Nesting(v), MembersNesting(next))
  }

  /** Values a tree can hold: C strings, and doubles. */
  ghost predicate Printable(v: Json) {
    match v
    case Number(d) => Holds(d)
    case Str(s) => '\0' !in s
    case Array(items) => PrintableItems(items)
    case Object(members) => PrintableMembers(members)
    case _ => true
  }

  ghost predicate PrintableItems(items: Items) {
    match items
    case NoItems => true
    case Item(v, next) => Printable(v) && PrintableItems(next)
  }

  ghost predicate PrintableMembers(members: Members) {
    match members
    case NoMembers => true
    case Member(name, v, next) => '\0' !in name && Printable(v) && PrintableMembers(next)
  }

  // ----------------------------------------------------------- rendering

  function Tabs(n: nat): string {
    if n == 0 then "" else "\t" + Tabs(n - 1)
  }

  /** What print_value writes for a value at nesting depth `depth`, formatted or not. */
  function Render(v: Json, format: bool, depth: nat): string {
    match v
    case Null => "null"
    case False => "false"
    case True => "true"
    case Number(d) => NumberPrint(d)
    case Str(s) => Quote(s)
    case Array(items) => "[" + RenderItems(items, format, depth + 1) + "]"
    case Object(members) =>
      OpenBrace(format) + RenderMembers(members, format, depth + 1) + CloseBrace(format, depth)
  }

  function OpenBrace(format: bool): string { if format then "{\n" else "{" }

  function CloseBrace(format: bool, depth: nat): string { if format then Tabs(depth) + "}" else "}" }

  function ItemSeparator(format: bool, last: bool): string {
    if last then "" else if format then ", " else ","
  }

  function RenderItems(items: Items, format: bool, depth: nat): string {
    match items
    case NoItems => ""
    case Item(v, next) =>
      Render(v, format, depth) + (ItemSeparator(format, next.NoItems?) + RenderItems(next, format, depth))
  }

  function Colon(format: bool): string { if format then ":\t" else ":" }

  function MemberSeparator(format: bool, last: bool): string {
    (if last then "" else ",") + (if format then "\n" else "")
  }

  function Indent(format: bool, depth: nat): string { if format then Tabs(depth) else "" }

  function RenderMembers(members: Members, format: bool, depth: nat): string {
    match members
    case NoMembers => ""
    case Member(name, v, next) =>
      Indent(format, depth) + (Quote(name) + (Colon(format) + (Render(v, format, depth)
      + (MemberSeparator(format, next.NoMembers?) + RenderMembers(next, format, depth)))))
  }
}
