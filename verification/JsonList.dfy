/**
 The doubly linked child list of an array or object: append, detach by pointer, insert at an index, replace by pointer.
 Each operation is proved to be the sequence operation it stands for, with next and prev mirrored and no item twice.
 */
module JsonList {
  class Item {
    var next: Item?
    var prev: Item?

    constructor ()
      ensures next == null && prev == null
    {
      next, prev := null, null;
    }
  }

  function Without(s: seq<Item>, k: nat): seq<Item>
    requires k < |s|
  {
    s[..k] + s[k + 1..]
  }

  function WithInserted(s: seq<Item>, k: nat, item: Item): seq<Item>
    requires k <= |s|
  {
    s[..k] + [item] + s[k..]
  }

  ghost predicate NoDuplicates(s: seq<Item>) {
    forall i, j :: 0 <= i < j < |s| ==> s[i] != s[j]
  }

  function At(s: seq<Item>, i: int): Item? {
    if 0 <= i < |s| then s[i] else null
  }

  /** Links in list order, both ways, null at the ends. */
  ghost predicate Mirrored(s: seq<Item>)
    reads s
  {
    && (forall i {:trigger s[i].next} :: 0 <= i < |s| ==> s[i].next == At(s, i + 1))
    && (forall i {:trigger s[i].prev} :: 0 <= i < |s| ==> s[i].prev == At(s, i - 1))
  }

  /** A list of other items, linked among themselves, that can follow the items of a list. */
  ghost predicate Appendable(items: seq<Item>, chain: seq<Item>)
    reads chain
  {
    && NoDuplicates(chain) && (forall x :: x in chain ==> x !in items)
    && (forall i {:trigger chain[i].next} :: 0 <= i < |chain| ==> chain[i].next == At(chain, i + 1))
    && (forall i {:trigger chain[i].prev} :: 0 < i < |chain| ==> chain[i].prev == At(chain, i - 1))
    && (items == [] && chain != [] ==> chain[0].prev == null)
  }

  /** Two lists joined at the end of the first. */
  lemma MirroredJoined(s: seq<Item>, chain: seq<Item>)
    requires s != [] && chain != [] && NoDuplicates(s) && NoDuplicates(chain) && (forall x :: x in chain ==> x !in s)
    requires forall i {:trigger s[i].next} :: 0 <= i < |s| ==> s[i].next == if i == |s| - 1 then chain[0] else At(s, i + 1)
    requires forall i {:trigger s[i].prev} :: 0 <= i < |s| ==> s[i].prev == At(s, i - 1)
    requires forall i {:trigger chain[i].next} :: 0 <= i < |chain| ==> chain[i].next == At(chain, i + 1)
    requires forall i {:trigger chain[i].prev} :: 0 <= i < |chain| ==> chain[i].prev == if i == 0 then s[|s| - 1] else At(chain, i - 1)
    ensures Mirrored(s + chain) && NoDuplicates(s + chain) && At(s + chain, 0) == s[0]
  {
    var t := s + chain;
    forall i, j | 0 <= i < j < |t|
      ensures t[i] != t[j]
    {
      assert i < |s| <= j ==> t[j] == chain[j - |s|] && t[j] in chain;
    }
    forall i {:trigger t[i].next} | 0 <= i < |t|
      ensures t[i].next == At(t, i + 1) && t[i].prev == At(t, i - 1)
    {
      if i < |s| {
        assert t[i] == s[i];
      } else {
        assert t[i] == chain[i - |s|];
      }
    }
  }

  /** The links of the old items once item k has been unlinked. */
  ghost predicate UnlinkedAt(s: seq<Item>, k: nat)
    reads s
  {
    && (forall j {:trigger s[j].next} :: 0 <= j < |s| && j != k ==>
          s[j].next == if j == k - 1 then At(s, k + 1) else At(s, j + 1))
    && (forall j {:trigger s[j].prev} :: 0 <= j < |s| && j != k ==>
          s[j].prev == if j == k + 1 then At(s, k - 1) else At(s, j - 1))
  }

  lemma MirroredWithout(s: seq<Item>, k: nat)
    requires k < |s| && NoDuplicates(s) && UnlinkedAt(s, k)
    ensures Mirrored(Without(s, k)) && NoDuplicates(Without(s, k)) && s[k] !in Without(s, k)
    ensures At(Without(s, k), 0) == if k == 0 then At(s, 1) else At(s, 0)
  {
    WithoutElements(s, k);
    forall i | 0 <= i < |s| - 1
      ensures var t := Without(s, k); t[i].next == At(t, i + 1) && t[i].prev == At(t, i - 1)
    {
      assert Without(s, k)[i] == s[if i < k then i else i + 1];
    }
  }

  /** The links of the old items once an item has been linked in front of item k. */
  ghost predicate LinkedAt(s: seq<Item>, k: nat, item: Item)
    reads s
  {
    && (forall j {:trigger s[j].next} :: 0 <= j < |s| ==> s[j].next == if j == k - 1 then item else At(s, j + 1))
    && (forall j {:trigger s[j].prev} :: 0 <= j < |s| ==> s[j].prev == if j == k then item else At(s, j - 1))
  }

  lemma MirroredInserted(s: seq<Item>, k: nat, item: Item)
    requires k < |s| && NoDuplicates(s) && item !in s && LinkedAt(s, k, item)
    requires item.next == s[k] && item.prev == At(s, k - 1)
    ensures Mirrored(WithInserted(s, k, item)) && NoDuplicates(WithInserted(s, k, item))
    ensures At(WithInserted(s, k, item), 0) == if k == 0 then item else At(s, 0)
  {
    InsertedElements(s, k, item);
    forall i | 0 <= i < |s| + 1
      ensures var t := WithInserted(s, k, item); t[i].next == At(t, i + 1) && t[i].prev == At(t, i - 1)
    {
      InsertedAt(s, k, item, i);
      InsertedAt(s, k, item, i + 1);
      InsertedAt(s, k, item, i - 1);
      assert i < k ==> s[i].next == (if i == k - 1 then item else At(s, i + 1)) && s[i].prev == At(s, i - 1);
      assert i > k ==> s[i - 1].next == At(s, i) && s[i - 1].prev == (if i - 1 == k then item else At(s, i - 2));
    }
  }

  lemma InsertedAt(s: seq<Item>, k: nat, item: Item, i: int)
    requires k <= |s|
    ensures At(WithInserted(s, k, item), i) == if i < k then At(s, i) else if i == k then item else At(s, i - 1)
    ensures 0 <= i <= |s| ==> WithInserted(s, k, item)[i] == if i < k then s[i] else if i == k then item else s[i - 1]
  {
  }

  /** The links of the old items once another item has taken the place of item k. */
  ghost predicate RelinkedAt(s: seq<Item>, k: nat, item: Item)
    reads s
  {
    && (forall j {:trigger s[j].next} :: 0 <= j < |s| && j != k ==>
          s[j].next == if j == k - 1 then item else At(s, j + 1))
    && (forall j {:trigger s[j].prev} :: 0 <= j < |s| && j != k ==>
          s[j].prev == if j == k + 1 then item else At(s, j - 1))
  }

  lemma MirroredReplaced(s: seq<Item>, k: nat, item: Item)
    requires k < |s| && NoDuplicates(s) && item !in s && RelinkedAt(s, k, item)
    requires item.next == At(s, k + 1) && item.prev == At(s, k - 1)
    ensures Mirrored(s[k := item]) && NoDuplicates(s[k := item]) && s[k] !in s[k := item]
  {
    ReplacedElements(s, k, item);
  }

  lemma WithoutElements(s: seq<Item>, k: nat)
    requires k < |s| && NoDuplicates(s)
    ensures |Without(s, k)| == |s| - 1 && NoDuplicates(Without(s, k)) && s[k] !in Without(s, k)
    ensures forall i :: 0 <= i < |s| - 1 ==> Without(s, k)[i] == s[if i < k then i else i + 1]
  {
  }

  lemma InsertedElements(s: seq<Item>, k: nat, item: Item)
    requires k <= |s| && NoDuplicates(s) && item !in s
    ensures |WithInserted(s, k, item)| == |s| + 1 && NoDuplicates(WithInserted(s, k, item))
    ensures forall i :: 0 <= i <= |s| ==> WithInserted(s, k, item)[i] == if i < k then s[i] else if i == k then item else s[i - 1]
  {
  }

  lemma ReplacedElements(s: seq<Item>, k: nat, item: Item)
    requires k < |s| && NoDuplicates(s) && item !in s
    ensures NoDuplicates(s[k := item]) && s[k] !in s[k := item]
  {
  }

  /** The array or object that owns the list. */
  class Parent {
    var child: Item?
    ghost var items: seq<Item>

    constructor ()
      ensures Valid() && items == []
    {
      child, items := null, [];
    }

    ghost predicate Valid()
      reads this, items
    {
      child == At(items, 0) && NoDuplicates(items) && Mirrored(items)
    }

    /** get_array_item: null behind the end. */
    method GetArrayItem(index: nat) returns (item: Item?)
      requires Valid()
      ensures item == At(items, index)
    {
      item := child;
      var left := index;
      ghost var k: nat := 0;
      while item != null && left > 0
        invariant k + left == index && 0 <= k <= |items| && item == At(items, k)
        decreases left
      {
        left := left - 1;
        item := item.next;
        k := k + 1;
      }
    }

    method GetArraySize() returns (size: nat)
      requires Valid()
      ensures size == |items|
    {
      var current := child;
      size := 0;
      while current != null
        invariant size <= |items| && current == At(items, size)
        decreases |items| - size
      {
        size := size + 1;
        current := current.next;
      }
    }

    /** cJSON_AddItemToArray: an item with a `next` brings the items behind it along. */
    method AddItemToArray(item: Item?, ghost chain: seq<Item>)
      requires Valid() && (item != null ==> chain != [] && chain[0] == item && Appendable(items, chain))
      modifies this, items, if item == null then {} else {item}
      ensures Valid()
      ensures items == if item == null then old(items) else old(items) + chain
    {
      if item == null {
        return;
      }
      if child == null {
        child := item;
        assert items + chain == chain;
      } else {
        var last := child;
        ghost var k := 0;
        while last.next != null
          invariant 0 <= k < |items| && last == items[k]
          decreases |items| - k
        {
          last := last.next;
          k := k + 1;
        }
        assert item in chain && last in items;
        assert forall i {:trigger chain[i]} :: 0 <= i < |chain| ==> chain[i] in chain && chain[i] != last;
        assert forall i {:trigger items[i]} :: 0 <= i < |items| ==> items[i] != item;
        SuffixObject(last, item);
        MirroredJoined(items, chain);
      }
      items := items + chain;
    }

    method SuffixObject(prev: Item, item: Item)
      modifies prev`next, item`prev
      ensures prev.next == item && item.prev == prev
    {
      prev.next := item;
      item.prev := prev;
    }

    /** cJSON_DetachItemViaPointer; k is the item's place in the list. */
    method DetachItemViaPointer(item: Item?, ghost k: nat) returns (detached: Item?)
      requires Valid() && (item != null ==> k < |items| && items[k] == item)
      modifies this, items
      ensures Valid() && detached == item
      ensures items == if item == null then old(items) else Without(old(items), k)
      ensures item != null ==> item.next == null && item.prev == null
    {
      if item == null {
        return null;
      }
      assert item.prev == At(items, k - 1) && item.next == At(items, k + 1);
      if item.prev != null {
        item.prev.next := item.next;
      }
      if item.next != null {
        item.next.prev := item.prev;
      }
      if item == child {
        child := item.next;
      }
      item.prev := null;
      item.next := null;
      assert UnlinkedAt(items, k);
      MirroredWithout(items, k);
      items := Without(items, k);
      return item;
    }

    /** cJSON_DetachItemFromArray. */
    method DetachItemFromArray(which: int) returns (detached: Item?)
      requires Valid()
      modifies this, items
      ensures Valid() && detached == old(At(items, which))
      ensures items == if 0 <= which < |old(items)| then Without(old(items), which) else old(items)
    {
      if which < 0 {
        return null;
      }
      var item := GetArrayItem(which);
      detached := DetachItemViaPointer(item, which);
    }

    /** cJSON_InsertItemInArray: nothing for a negative index, at the end for one that is too large. */
    method InsertItemInArray(which: int, newitem: Item, ghost chain: seq<Item>)
      requires Valid() && newitem !in items
      requires which >= |items| ==> chain != [] && chain[0] == newitem && Appendable(items, chain)
      modifies this, items, newitem
      ensures Valid()
      ensures items == if which < 0 then old(items)
                       else if which < |old(items)| then WithInserted(old(items), which, newitem)
                       else old(items) + chain
    {
      if which < 0 {
        return;
      }
      var after := GetArrayItem(which);
      if after == null {
        AddItemToArray(newitem, chain);
        return;
      }
      InsertBefore(after, newitem, which);
    }

    /** The links of a new item in front of item k. */
    method InsertBefore(after: Item, newitem: Item, ghost k: nat)
      requires Valid() && k < |items| && items[k] == after && newitem !in items
      modifies this, items, newitem
      ensures Valid() && items == WithInserted(old(items), k, newitem)
    {
      newitem.next := after;
      newitem.prev := after.prev;
      after.prev := newitem;
      if after == child {
        child := newitem;
      } else {
        newitem.prev.next := newitem;
      }
      assert LinkedAt(items, k, newitem);
      MirroredInserted(items, k, newitem);
      items := WithInserted(items, k, newitem);
    }

    /** cJSON_ReplaceItemViaPointer; k is the replaced item's place. */
    method ReplaceItemViaPointer(item: Item?, replacement: Item?, ghost k: nat) returns (ok: bool)
      requires Valid() && (item != null ==> k < |items| && items[k] == item)
      requires replacement != null && replacement != item ==> replacement !in items
      modifies this, items, if replacement == null then {} else {replacement}
      ensures Valid() && (ok <==> item != null && replacement != null)
      ensures items == if ok then old(items)[k := replacement] else old(items)
      ensures ok && replacement != item ==> item.next == null && item.prev == null
    {
      if replacement == null || item == null {
        return false;
      }
      if replacement == item {
        return true;
      }
      Relink(item, replacement, k);
      item.next := null;
      item.prev := null;
      return true;
    }

    /** The links of item k handed over to its replacement. */
    method Relink(item: Item, replacement: Item, ghost k: nat)
      requires Valid() && k < |items| && items[k] == item && replacement !in items
      modifies this, items, replacement
      ensures Valid() && items == old(items)[k := replacement] && item !in items
    {
      assert item.prev == At(items, k - 1) && item.next == At(items, k + 1);
      replacement.next := item.next;
      replacement.prev := item.prev;
      if replacement.next != null {
        replacement.next.prev := replacement;
      }
      if replacement.prev != null {
        replacement.prev.next := replacement;
      }
      if child == item {
        child := replacement;
      }
      assert RelinkedAt(items, k, replacement);
      MirroredReplaced(items, k, replacement);
      items := items[k := replacement];
    }
  }
}
