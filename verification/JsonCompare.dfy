/**
 Comparing two trees, case-sensitively. Objects are compared by looking every member of either one up in the other, so
 the order of members does not matter; what the comparison means is said by an independent reading of trees as values.
 */
module JsonCompare {
  import opened Common
  import opened Doubles
  import opened Json

  // ------------------------------------------------------- the comparison

  function Size(v: Json): nat {
    match v
    case Array(items) => 1 + ItemsSize(items)
    case Object(members) => 1 + MembersSize(members)
    case _ => 0
  }

  function ItemsSize(items: Items): nat {
    match items
    case NoItems => 0
    case Item(v, next) => 1 + Size(v) + ItemsSize(next)
  }

  function MembersSize(members: Members): nat {
    match members
    case NoMembers => 0
    case Member(_, v, next) => 1 + Size(v) + MembersSize(next)
  }

  /** get_object_item: the first member of that name. */
  function Find(members: Members, name: string): (r: Option<Json>)
    ensures r.Some? ==> Size(r.value) < MembersSize(members)
  {
    match members
    case NoMembers => None
    case Member(n, v, next) => if n == name then Some(v) else Find(next, name)
  }

  predicate Same(a: Json, b: Json)
    decreases Size(a) + Size(b), 0
  {
    match (a, b)
    case (Null, Null) => true
    case (False, False) => true
    case (True, True) => true
    case (Number(x), Number(y)) => Equal(x, y)
    case (Str(s), Str(t)) => s == t
    case (Array(xs), Array(ys)) => SameItems(xs, ys)
    case (Object(xs), Object(ys)) => AllIn(xs, ys) && AllIn(ys, xs)
    case _ => false
  }

  predicate SameItems(xs: Items, ys: Items)
    decreases ItemsSize(xs) + ItemsSize(ys), 1
  {
    match (xs, ys)
    case (Item(v, xs'), Item(w, ys')) => Same(v, w) && SameItems(xs', ys')
    case (NoItems, NoItems) => true
    case _ => false
  }

  /** Every member of xs has a first namesake in ys that is the same. */
  predicate AllIn(xs: Members, ys: Members)
    decreases MembersSize(xs) + MembersSize(ys), 1
  {
    match xs
    case NoMembers => true
    case Member(name, v, next) =>
      (match Find(ys, name) case None => false case Some(w) => Same(v, w)) && AllIn(next, ys)
  }

  method GetObjectItem(members: Members, name: string) returns (r: Option<Json>)
    ensures r == Find(members, name)
  {
    var current := members;
    while current.Member? && current.name != name
      invariant Find(current, name) == Find(members, name)
      decreases current
    {
      current := current.next;
    }
    r := if current.Member? then Some(current.value) else None;
  }

  /** cJSON_Compare on two trees that share no item. */
  method Compare(a: Json, b: Json) returns (r: bool)
    ensures r == Same(a, b)
    ensures r <==> Denote(a) == Denote(b) && Consistent(a) && Consistent(b)
    ensures Ordinary(a) && Ordinary(b) ==> (r <==> Denote(a) == Denote(b))
    decreases Size(a) + Size(b), 0
  {
    SameMeansEqual(a, b);
    if Ordinary(a) && Ordinary(b) {
      OrdinaryIsConsistent(a);
      OrdinaryIsConsistent(b);
    }
    match a
    case Null => return b.Null?;
    case False => return b.False?;
    case True => return b.True?;
    case Number(d) => return b.Number? && Equal(d, b.d);
    case Str(s) => return b.Str? && s == b.s;
    case Array(items) =>
      if !b.Array? {
        return false;
      }
      r := CompareArrays(items, b.items);
    case Object(members) =>
      if !b.Object? {
        return false;
      }
      r := CompareMembers(members, b.members);
      if r {
        r := CompareMembers(b.members, members);
      }
  }

  method CompareArrays(xs: Items, ys: Items) returns (r: bool)
    ensures r == SameItems(xs, ys)
    decreases ItemsSize(xs) + ItemsSize(ys), 1
  {
    var x, y := xs, ys;
    while x.Item? && y.Item?
      invariant SameItems(x, y) == SameItems(xs, ys)
      invariant ItemsSize(x) <= ItemsSize(xs) && ItemsSize(y) <= ItemsSize(ys)
      decreases x
    {
      var same := Compare(x.value, y.value);
      if !same {
        return false;
      }
      x, y := x.next, y.next;
    }
    // one of the arrays may be longer than the other
    r := x.NoItems? && y.NoItems?;
  }

  method CompareMembers(xs: Members, ys: Members) returns (r: bool)
    ensures r == AllIn(xs, ys)
    decreases MembersSize(xs) + MembersSize(ys), 1
  {
    var x := xs;
    while x.Member?
      invariant AllIn(x, ys) == AllIn(xs, ys) && MembersSize(x) <= MembersSize(xs)
      decreases x
    {
      var found := GetObjectItem(ys, x.name);
      if found.None? {
        return false;
      }
      var same := Compare(x.value, found.value);
      if !same {
        return false;
      }
      x := x.next;
    }
    r := true;
  }

  // ------------------------------------------------------------ what it means

  /** JSON values as mathematics has them: objects are finite maps. */
  datatype Value =
    | NullValue
    | BoolValue(b: bool)
    | NumberValue(d: Double)
    | StringValue(s: string)
    | ArrayValue(values: seq<Value>)
    | ObjectValue(table: map<string, Value>)

  ghost function Denote(v: Json): Value {
    match v
    case Null => NullValue
    case False => BoolValue(false)
    case True => BoolValue(true)
    case Number(d) => NumberValue(d)
    case Str(s) => StringValue(s)
    case Array(items) => ArrayValue(Values(items))
    case Object(members) => ObjectValue(Table(members))
  }

  ghost function Values(items: Items): seq<Value> {
    match items
    case NoItems => []
    case Item(v, next) => [Denote(v)] + Values(next)
  }

  ghost function Table(members: Members): map<string, Value> {
    match members
    case NoMembers => map[]
    case Member(name, v, next) => Table(next)[name := Denote(v)]
  }

  /** Member names are pairwise distinct in every object of the tree, and no number is NaN. */
  ghost predicate Ordinary(v: Json) {
    match v
    case Number(d) => !d.NaN?
    case Array(items) => OrdinaryItems(items)
    case Object(members) => OrdinaryMembers(members)
    case _ => true
  }

  ghost predicate OrdinaryItems(items: Items) {
    match items
    case NoItems => true
    case Item(v, next) => Ordinary(v) && OrdinaryItems(next)
  }

  ghost predicate OrdinaryMembers(members: Members) {
    match members
    case NoMembers => true
    case Member(name, v, next) => Find(next, name) == None && Ordinary(v) && OrdinaryMembers(next)
  }

  /** In every object of the tree, members of one name denote one value; and no number is NaN. */
  ghost predicate Consistent(v: Json) {
    match v
    case Number(d) => !d.NaN?
    case Array(items) => ConsistentItems(items)
    case Object(members) => ConsistentMembers(members)
    case _ => true
  }

  ghost predicate ConsistentItems(items: Items) {
    match items
    case NoItems => true
    case Item(v, next) => Consistent(v) && ConsistentItems(next)
  }

  ghost predicate ConsistentMembers(members: Members) {
    match members
    case NoMembers => true
    case Member(name, v, next) =>
      && Consistent(v) && ConsistentMembers(next)
      && (name in Table(next) ==> Table(next)[name] == Denote(v))
  }

  lemma {:induction false} FindInTable(members: Members, name: string)
    ensures Find(members, name).Some? <==> name in Table(members)
    ensures Find(members, name).Some? ==> Denote(Find(members, name).value) == Table(members)[name]
    ensures ConsistentMembers(members) && Find(members, name).Some? ==> Consistent(Find(members, name).value)
  {
    if members.Member? && members.name != name {
      FindInTable(members.next, name);
    }
  }

  ghost predicate Within(m: map<string, Value>, k: map<string, Value>) {
    forall name :: name in m ==> name in k && m[name] == k[name]
  }

  /**
   What the comparison means, on all trees: it holds exactly if the trees denote the same value and neither has two
   members of one name with different values, or a NaN.
   */
  lemma {:induction false} SameMeansEqual(a: Json, b: Json)
    ensures Same(a, b) <==> Denote(a) == Denote(b) && Consistent(a) && Consistent(b)
    decreases Size(a) + Size(b), 0
  {
    match (a, b)
    case (Array(xs), Array(ys)) => SameItemsMeansEqual(xs, ys);
    case (Object(xs), Object(ys)) =>
      AllInMeansWithin(xs, ys);
      AllInMeansWithin(ys, xs);
      WithinBothWays(Table(xs), Table(ys));
    case _ =>
  }

  lemma WithinBothWays(m: map<string, Value>, k: map<string, Value>)
    ensures m == k <==> Within(m, k) && Within(k, m)
  {
  }

  lemma {:induction false} SameItemsMeansEqual(xs: Items, ys: Items)
    ensures SameItems(xs, ys) <==> Values(xs) == Values(ys) && ConsistentItems(xs) && ConsistentItems(ys)
    decreases ItemsSize(xs) + ItemsSize(ys), 1
  {
    if xs.Item? && ys.Item? {
      SameMeansEqual(xs.value, ys.value);
      SameItemsMeansEqual(xs.next, ys.next);
      assert Values(xs)[0] == Denote(xs.value) && Values(xs)[1..] == Values(xs.next);
      assert Values(ys)[0] == Denote(ys.value) && Values(ys)[1..] == Values(ys.next);
    }
  }

  lemma {:induction false} AllInMeansWithin(xs: Members, ys: Members)
    ensures AllIn(xs, ys) ==> ConsistentMembers(xs) && Within(Table(xs), Table(ys))
    ensures ConsistentMembers(xs) && ConsistentMembers(ys) && Within(Table(xs), Table(ys)) ==> AllIn(xs, ys)
    decreases MembersSize(xs) + MembersSize(ys), 1
  {
    if xs.Member? {
      FindInTable(ys, xs.name);
      AllInMeansWithin(xs.next, ys);
      var found := Find(ys, xs.name);
      if found.Some? {
        SameMeansEqual(xs.value, found.value);
      }
      WithinUpdate(Table(xs.next), xs.name, Denote(xs.value), Table(ys));
    }
  }

  lemma WithinUpdate(m: map<string, Value>, name: string, v: Value, k: map<string, Value>)
    ensures name in m && m[name] != v && Within(m, k) ==> !(name in k && k[name] == v)
    ensures name in m ==> m[name] == v || !Within(m, k) || !Within(m[name := v], k)
    ensures (name in m ==> m[name] == v) ==>
              (Within(m[name := v], k) <==> Within(m, k) && name in k && k[name] == v)
  {
    if Within(m[name := v], k) && (name in m ==> m[name] == v) {
      assert name in m[name := v];
      forall n | n in m
        ensures n in k && m[n] == k[n]
      {
        assert n in m[name := v] && m[name := v][n] == m[n];
      }
    }
  }

  lemma {:induction false} OrdinaryIsConsistent(v: Json)
    requires Ordinary(v)
    ensures Consistent(v)
    decreases v
  {
    match v
    case Array(items) => OrdinaryItemsConsistent(items);
    case Object(members) => OrdinaryMembersConsistent(members);
    case _ =>
  }

  lemma {:induction false} OrdinaryItemsConsistent(items: Items)
    requires OrdinaryItems(items)
    ensures ConsistentItems(items)
    decreases items
  {
    if items.Item? {
      OrdinaryIsConsistent(items.value);
      OrdinaryItemsConsistent(items.next);
    }
  }

  lemma {:induction false} OrdinaryMembersConsistent(members: Members)
    requires OrdinaryMembers(members)
    ensures ConsistentMembers(members)
    decreases members
  {
    if members.Member? {
      OrdinaryIsConsistent(members.value);
      OrdinaryMembersConsistent(members.next);
      FindInTable(members.next, members.name);
    }
  }

  /** The comparison is symmetric, on all trees. */
  lemma CompareSymmetric(a: Json, b: Json)
    ensures Same(a, b) == Same(b, a)
  {
    SameMeansEqual(a, b);
    SameMeansEqual(b, a);
  }

  lemma CompareTransitive(a: Json, b: Json, c: Json)
    requires Same(a, b) && Same(b, c)
    ensures Same(a, c)
  {
    SameMeansEqual(a, b);
    SameMeansEqual(b, c);
    SameMeansEqual(a, c);
  }

  /** A tree equals its own copy exactly if no object in it gives one name two different values, and no number is NaN. */
  lemma EqualsItsCopyIff(v: Json)
    ensures Same(v, v) <==> Consistent(v)
  {
    SameMeansEqual(v, v);
  }

  /** So {"k": null, "k": true} does not equal its copy; {"k": null, "k": null} does. */
  lemma DuplicateNames() returns (different: Json, same: Json)
    ensures !Ordinary(different) && !Same(different, different)
    ensures !Ordinary(same) && Same(same, same)
  {
    different := Object(Member("k", Null, Member("k", True, NoMembers)));
    same := Object(Member("k", Null, Member("k", Null, NoMembers)));
    assert Find(different.members, "k") == Some(Null);
    assert !AllIn(different.members.next, different.members);
    assert Find(same.members, "k") == Some(Null);
    assert AllIn(same.members.next, same.members);
  }
}
