/** The children of a cJSON array or object: a doubly linked chain of items whose first
    item's `prev` is the last one (add_item_to_array, cJSON_InsertItemInArray,
    cJSON_DetachItemViaPointer and cJSON_ReplaceItemViaPointer in src/third-party/cJSON.c). */
module SiblingList {
  import opened Bytes
  import opened Json

  ghost predicate Distinct(s: seq<Item>) {
    forall i, j :: 0 <= i < j < |s| ==> s[i] != s[j]
  }

  lemma DistinctWith(s: seq<Item>, at: nat, x: Item)
    requires Distinct(s) && at <= |s| && x !in s
    ensures Distinct(s[..at] + [x] + s[at..])
  {
  }

  lemma DistinctWithout(s: seq<Item>, at: nat)
    requires Distinct(s) && at < |s|
    ensures Distinct(s[..at] + s[at + 1..]) && s[at] !in s[..at] + s[at + 1..]
  {
  }

  lemma DistinctReplaced(s: seq<Item>, at: nat, x: Item)
    requires Distinct(s) && at < |s| && x !in s
    ensures Distinct(s[at := x])
  {
  }

  /** A cJSON item: its links, the name it has in an object, its type and, unless it is an
      array or object, its value. `children` is the list its `child` starts, and `below`
      everything that hangs on it. */
  class Item {
    var next: Item?
    var prev: Item?
    var child: Item?
    var name: Text
    var value: Json // the type of an array or object, without its children
    ghost var children: seq<Item>
    ghost var below: set<Item>

    /** cJSON_New_Item */
    constructor ()
      ensures next == null && prev == null && child == null && children == [] && below == {}
      ensures value == Null && name == []
    {
      next, prev, child := null, null, null;
      name, value := [], Null;
      children, below := [], {};
    }

    /** The chain along `next`, and back along `prev` from all items but the first. */
    ghost predicate Linked()
      reads this`child, this`children, children`next, children`prev
    {
      && this !in children
      && Distinct(children)
      && (child == null <==> children == []) && (children != [] ==> child == children[0])
      && Forward(children) && Backward(children)
    }

    /** Each item's `next` is the item behind it. */
    static ghost predicate Forward(s: seq<Item>)
      reads s`next
    {
      forall i {:trigger s[i].next} :: 0 <= i < |s| ==> s[i].next == if i + 1 < |s| then s[i + 1] else null
    }

    /** Each item's `prev` is the item in front of it; the first item's is not looked at. */
    static ghost predicate Backward(s: seq<Item>)
      reads s`prev
    {
      forall i {:trigger s[i].prev} :: 1 <= i < |s| ==> s[i].prev == s[i - 1]
    }

    /** The links of one item of the list. */
    lemma Neighbours(at: nat)
      requires Linked() && at < |children|
      ensures children[at].next == if at + 1 < |children| then children[at + 1] else null
      ensures at > 0 ==> children[at].prev == children[at - 1]
      ensures forall i :: 0 <= i < |children| && i != at ==> children[i] != children[at]
    {
    }

    /** The chain as parsing and adding build it: the first item's `prev` is the last item. */
    ghost predicate Valid()
      reads this`child, this`children, children`next, children`prev
    {
      Linked() && (children != [] ==> children[0].prev == children[|children| - 1])
    }

    /** Item `at` was taken out, and the items next to it linked to each other. */
    ghost predicate Removed(was: seq<Item>, at: nat)
      reads this`children
    {
      at < |was| && children == was[..at] + was[at + 1..]
    }

    twostate lemma ForwardWithout(at: nat)
      requires old(Forward(children)) && Removed(old(children), at)
      requires
        var was := old(children);
        && (forall k :: 0 <= k < |was| && k != at && k + 1 != at ==> was[k].next == old(was[k].next))
        && (at > 0 ==> was[at - 1].next == old(was[at].next))
      ensures Forward(children)
    {
      var was := old(children);
      forall i {:trigger children[i].next} | 0 <= i < |children|
        ensures children[i].next == if i + 1 < |children| then children[i + 1] else null
      {
        assert children[i] == was[if i < at then i else i + 1];
        assert i + 1 < |children| ==> children[i + 1] == was[if i + 1 < at then i + 1 else i + 2];
      }
    }

    twostate lemma BackwardWithout(at: nat)
      requires old(Backward(children)) && Removed(old(children), at)
      requires
        var was := old(children);
        && (forall k :: 0 < k < |was| && k != at && k != at + 1 ==> was[k].prev == old(was[k].prev))
        && (0 < at < |was| - 1 ==> was[at + 1].prev == old(was[at].prev))
      ensures Backward(children)
    {
      var was := old(children);
      forall i {:trigger children[i].prev} | 1 <= i < |children|
        ensures children[i].prev == children[i - 1]
      {
        assert children[i] == was[if i < at then i else i + 1];
        assert children[i - 1] == was[if i - 1 < at then i - 1 else i];
      }
    }

    /** Item `at` was put in, and linked to the items next to it. */
    ghost predicate Added(was: seq<Item>, at: nat)
      reads this`children
    {
      at <= |was| && at < |children| && children == was[..at] + [children[at]] + was[at..]
    }

    twostate lemma ForwardWith(at: nat)
      requires old(Forward(children)) && Added(old(children), at)
      requires
        var was, x := old(children), children[at];
        && (forall k :: 0 <= k < |was| && k + 1 != at ==> was[k].next == old(was[k].next))
        && (at > 0 ==> was[at - 1].next == x)
        && x.next == if at < |was| then was[at] else null
      ensures Forward(children)
    {
      var was := old(children);
      forall i {:trigger children[i].next} | 0 <= i < |children|
        ensures children[i].next == if i + 1 < |children| then children[i + 1] else null
      {
        assert i != at ==> children[i] == was[if i < at then i else i - 1];
        assert i + 1 < |children| && i + 1 != at ==> children[i + 1] == was[if i + 1 < at then i + 1 else i];
      }
    }

    twostate lemma BackwardWith(at: nat)
      requires old(Backward(children)) && Added(old(children), at)
      requires
        var was, x := old(children), children[at];
        && (forall k :: 0 < k < |was| && k != at ==> was[k].prev == old(was[k].prev))
        && (at < |was| ==> was[at].prev == x)
        && (at > 0 ==> x.prev == was[at - 1])
      ensures Backward(children)
    {
      var was := old(children);
      forall i {:trigger children[i].prev} | 1 <= i < |children|
        ensures children[i].prev == children[i - 1]
      {
        assert i != at ==> children[i] == was[if i < at then i else i - 1];
        assert i - 1 != at ==> children[i - 1] == was[if i - 1 < at then i - 1 else i - 2];
      }
    }

    twostate lemma ValidWith(at: nat)
      requires old(Valid()) && Added(old(children), at) && children[at] != this && children[at] !in old(children)
      requires
        var was, x := old(children), children[at];
        && (forall k :: 0 <= k < |was| && k + 1 != at ==> was[k].next == old(was[k].next))
        && (at > 0 ==> was[at - 1].next == x)
        && (x.next == if at < |was| then was[at] else null)
        && (forall k :: 0 < k < |was| && k != at ==> was[k].prev == old(was[k].prev))
        && (at < |was| ==> was[at].prev == x)
        && (at > 0 ==> x.prev == was[at - 1])
      requires child == children[0] && child.prev == children[|children| - 1]
      ensures Valid()
    {
      hide Distinct, Item.Forward, Item.Backward;
      DistinctWith(old(children), at, children[at]);
      ForwardWith(at);
      BackwardWith(at);
    }

    twostate lemma ValidWithout(at: nat)
      requires old(Valid()) && Removed(old(children), at)
      requires
        var was := old(children);
        && (forall k :: 0 <= k < |was| && k != at && k + 1 != at ==> was[k].next == old(was[k].next))
        && (at > 0 ==> was[at - 1].next == old(was[at].next))
        && (forall k :: 0 < k < |was| && k != at && k != at + 1 ==> was[k].prev == old(was[k].prev))
        && (0 < at < |was| - 1 ==> was[at + 1].prev == old(was[at].prev))
      requires if children == [] then child == null else child == children[0] && child.prev == children[|children| - 1]
      ensures Valid() && old(children)[at] !in children
    {
      hide Distinct, Item.Forward, Item.Backward;
      DistinctWithout(old(children), at);
      ForwardWithout(at);
      BackwardWithout(at);
    }

    /** Another item was put in the place of item `at`, with its links. */
    twostate lemma ForwardReplaced(at: nat)
      requires old(Forward(children))
      requires at < |children| == |old(children)| && children == old(children)[at := children[at]]
      requires
        var was := old(children);
        && (forall k :: 0 <= k < |was| && k != at && k + 1 != at ==> was[k].next == old(was[k].next))
        && (at > 0 ==> was[at - 1].next == children[at])
        && children[at].next == old(was[at].next)
      ensures Forward(children)
    {
      var was := old(children);
      forall i {:trigger children[i].next} | 0 <= i < |children|
        ensures children[i].next == if i + 1 < |children| then children[i + 1] else null
      {
        assert i != at ==> children[i] == was[i];
        assert i + 1 < |children| && i + 1 != at ==> children[i + 1] == was[i + 1];
      }
    }

    twostate lemma BackwardReplaced(at: nat)
      requires old(Backward(children))
      requires at < |children| == |old(children)| && children == old(children)[at := children[at]]
      requires
        var was := old(children);
        && (forall k :: 0 < k < |was| && k != at && k != at + 1 ==> was[k].prev == old(was[k].prev))
        && (at < |was| - 1 ==> was[at + 1].prev == children[at])
        && (at > 0 ==> children[at].prev == old(was[at].prev))
      ensures Backward(children)
    {
      var was := old(children);
      forall i {:trigger children[i].prev} | 1 <= i < |children|
        ensures children[i].prev == children[i - 1]
      {
        assert i != at ==> children[i] == was[i];
        assert i - 1 != at ==> children[i - 1] == was[i - 1];
      }
    }

    twostate lemma StaysValid(at: nat)
      requires old(Valid()) && at < |children| == |old(children)| && children == old(children)[at := children[at]]
      requires children[at] != this && children[at] !in old(children)
      requires
        var was := old(children);
        && (forall k :: 0 <= k < |was| && k != at && k + 1 != at ==> was[k].next == old(was[k].next))
        && (at > 0 ==> was[at - 1].next == children[at])
        && children[at].next == old(was[at].next)
        && (forall k :: 0 < k < |was| && k != at && k != at + 1 ==> was[k].prev == old(was[k].prev))
        && (at < |was| - 1 ==> was[at + 1].prev == children[at])
        && (at > 0 ==> children[at].prev == old(was[at].prev))
      requires child == children[0] && child.prev == children[|children| - 1]
      ensures Valid()
    {
      hide Distinct, Item.Forward, Item.Backward;
      DistinctReplaced(old(children), at, children[at]);
      ForwardReplaced(at);
      BackwardReplaced(at);
    }

    /** get_array_item */
    method GetItem(index: nat) returns (item: Item?)
      requires Linked()
      ensures index < |children| ==> item == children[index]
      ensures index >= |children| ==> item == null
    {
      item := child;
      var left: nat := index;
      ghost var at := 0;
      while item != null && left > 0
        invariant at + left == index && at <= |children|
        invariant item == null <==> at == |children|
        invariant at < |children| ==> item == children[at]
        decreases left
      {
        assert at < |children| - 1 ==> children[at].next == children[at + 1];
        left := left - 1;
        item := item.next;
        at := at + 1;
      }
    }

    /** add_item_to_array. The chain may lack the link to its tail, as the copy made by
        cJSON_Duplicate does; adding an item puts it in. An item added behind others must
        not have a `next`, since only the first item's is cleared. */
    method AddItem(item: Item) returns (ok: bool)
      requires Linked() && (children != [] ==> children[0].prev == null || children[0].prev == children[|children| - 1])
      requires item !in children && (children != [] ==> item.next == null)
      modifies this`child, this`children, children`next, children`prev, item`next, item`prev
      ensures ok <==> item != this
      ensures ok ==> Valid() && children == old(children) + [item]
      ensures !ok ==> unchanged(this) && unchanged(children) && unchanged(item)
    {
      hide Distinct, Item.Forward, Item.Backward;
      if item == this {
        return false;
      }
      ghost var was := children;
      DistinctWith(was, |was|, item);
      assert was[..|was|] + [item] + was[|was|..] == was + [item];
      if was != [] {
        Neighbours(0);
        Neighbours(|was| - 1);
      }
      if child == null {
        child := item;
        item.prev := item;
        item.next := null;
      } else if child.prev != null {
        SuffixObject(child.prev, item);
        child.prev := item;
      } else {
        var last := LastByNext();
        SuffixObject(last, item);
        child.prev := item;
      }
      children := was + [item];
      ForwardWith(|was|);
      BackwardWith(|was|);
      ok := true;
    }

    static method SuffixObject(prev: Item, item: Item)
      modifies prev`next, item`prev
      ensures prev.next == item && item.prev == prev
    {
      prev.next := item;
      item.prev := prev;
    }

    /** The last item, found along `next`. */
    method LastByNext() returns (last: Item)
      requires Linked() && children != []
      ensures last == children[|children| - 1]
    {
      last := child;
      ghost var at := 0;
      while last.next != null
        invariant 0 <= at < |children| && last == children[at]
        invariant last.next == null <==> at == |children| - 1
        decreases |children| - at
      {
        assert children[at].next == children[at + 1];
        last := last.next;
        at := at + 1;
      }
    }

    /** cJSON_InsertItemInArray, before the item at `which`, or at the end. */
    method InsertItem(which: int, item: Item) returns (ok: bool)
      requires Valid() && item !in children && item != this
      requires |children| <= which && children != [] ==> item.next == null
      modifies this`child, this`children, children`next, children`prev, item`next, item`prev
      ensures ok <==> which >= 0
      ensures ok ==> Valid()
      ensures ok && which < |old(children)| ==>
                children == old(children)[..which] + [item] + old(children)[which..]
      ensures ok && which >= |old(children)| ==> children == old(children) + [item]
      ensures ok && |old(children)| <= which ==> item.next == null
      ensures !ok ==> unchanged(this) && unchanged(children) && unchanged(item)
    {
      if which < 0 {
        return false;
      }
      var after := GetItem(which);
      if after == null {
        ok := AddItem(item);
        return;
      }
      InsertBefore(after, which, item);
      ok := true;
    }

    /** The end of cJSON_InsertItemInArray: in front of an item of this list. */
    method InsertBefore(after: Item, ghost at: nat, item: Item)
      requires Valid() && at < |children| && after == children[at] && item !in children && item != this
      modifies this`child, this`children, children`next, children`prev, item`next, item`prev
      ensures Valid() && children == old(children)[..at] + [item] + old(children)[at..]
    {
      hide Distinct, Item.Forward, Item.Backward;
      ghost var was := children;
      Neighbours(at);
      if at > 0 {
        Neighbours(at - 1);
      }
      item.next := after;
      item.prev := after.prev;
      after.prev := item;
      if after == child {
        child := item;
      } else {
        item.prev.next := item;
      }
      children := was[..at] + [item] + was[at..];
      ValidWith(at);
    }

    /** cJSON_DetachItemViaPointer, for an item of this list. */
    method DetachItem(item: Item, ghost at: nat)
      requires Valid() && at < |children| && item == children[at]
      modifies this`child, this`children, children`next, children`prev
      ensures Valid() && children == old(children)[..at] + old(children)[at + 1..]
      ensures item.prev == null && item.next == null && item !in children
    {
      hide Distinct, Item.Forward, Item.Backward;
      ghost var was := children;
      Neighbours(at);
      Neighbours(0);
      if at > 0 {
        Neighbours(at - 1);
      }
      if at < |was| - 1 {
        Neighbours(at + 1);
      }
      if item != child {
        item.prev.next := item.next;
      }
      if item.next != null {
        item.next.prev := item.prev;
      }
      if item == child {
        child := item.next;
      } else if item.next == null {
        child.prev := item.prev;
      }
      item.prev := null;
      item.next := null;
      children := was[..at] + was[at + 1..];
      ValidWithout(at);
    }

    /** cJSON_ReplaceItemViaPointer, for an item of this list. */
    method ReplaceItem(item: Item, ghost at: nat, replacement: Item)
      requires Valid() && at < |children| && item == children[at]
      requires replacement == item || (replacement !in children && replacement != this)
      modifies this`child, this`children, children`next, children`prev, replacement`next, replacement`prev
      ensures Valid() && children == old(children)[at := replacement]
      ensures replacement != item ==> item.prev == null && item.next == null
    {
      hide Distinct, Item.Forward, Item.Backward;
      if replacement == item {
        return;
      }
      Neighbours(at);
      Neighbours(0);
      if at > 0 {
        Neighbours(at - 1);
      }
      TakeLinks(item, at, replacement);
      if child == item {
        if child.prev == child {
          replacement.prev := replacement;
        }
        child := replacement;
      } else {
        if replacement.prev != null {
          replacement.prev.next := replacement;
        }
        if replacement.next == null {
          child.prev := replacement;
        }
      }
      item.next := null;
      item.prev := null;
      children := children[at := replacement];
      StaysValid(at);
    }

    /** Its start: the replacement takes the links of the item, and the item behind points to it. */
    method TakeLinks(item: Item, ghost at: nat, replacement: Item)
      requires Linked() && at < |children| && item == children[at] && replacement !in children
      modifies children`prev, replacement`next, replacement`prev
      ensures replacement.next == item.next && replacement.prev == old(item.prev)
      ensures at < |children| - 1 ==> children[at + 1].prev == replacement
      ensures forall k {:trigger children[k].prev} :: 0 <= k < |children| && k != at + 1 ==>
                children[k].prev == old(children[k].prev)
    {
      hide Distinct, Item.Forward, Item.Backward;
      Neighbours(at);
      if at < |children| - 1 {
        Neighbours(at + 1);
      }
      replacement.next := item.next;
      replacement.prev := item.prev;
      if replacement.next != null {
        replacement.next.prev := replacement;
      }
    }

    /** cJSON_DetachItemFromArray */
    method DetachAt(which: int) returns (item: Item?)
      requires Valid()
      modifies this`child, this`children, children`next, children`prev
      ensures Valid()
      ensures 0 <= which < |old(children)| ==>
                && item == old(children)[which] && item.next == null && item.prev == null
                && children == old(children)[..which] + old(children)[which + 1..]
      ensures !(0 <= which < |old(children)|) ==> item == null && children == old(children)
    {
      if which < 0 {
        return null;
      }
      item := GetItem(which);
      if item != null {
        DetachItem(item, which);
      }
    }

    /** cJSON_ReplaceItemInArray */
    method ReplaceAt(which: int, replacement: Item) returns (ok: bool)
      requires Valid() && replacement !in children && replacement != this
      modifies this`child, this`children, children`next, children`prev, replacement`next, replacement`prev
      ensures Valid() && (ok <==> 0 <= which < |old(children)|)
      ensures ok ==> children == old(children)[which := replacement] && old(children)[which].next == null
      ensures !ok ==> children == old(children) && replacement.next == old(replacement.next)
    {
      if which < 0 {
        return false;
      }
      var item := GetItem(which);
      ok := item != null;
      if ok {
        ReplaceItem(item, which, replacement);
      }
    }
  }

  /** A chain as it grows in parse_array, parse_object and cJSON_Duplicate: it has no link from
      its first item to its last. */
  ghost predicate Chained(items: seq<Item>, head: Item?, current: Item?)
    reads items`next, items`prev
  {
    && Distinct(items) && Item.Forward(items) && Item.Backward(items)
    && (items == [] ==> head == null && current == null)
    && (items != [] ==> head == items[0] && current == items[|items| - 1] && items[0].prev == null)
  }

  /** A new item behind the last one. */
  method AppendItem(head: Item?, current: Item?, item: Item, ghost items: seq<Item>) returns (newHead: Item)
    requires Chained(items, head, current) && item !in items && item.next == null && item.prev == null
    modifies items`next, item`prev
    ensures Chained(items + [item], newHead, item)
  {
    hide Distinct;
    if head == null {
      newHead := item;
    } else {
      newHead := head;
      current.next := item;
      item.prev := current;
    }
    DistinctWith(items, |items|, item);
    assert items[..|items|] + [item] + items[|items|..] == items + [item];
  }

  /** One request to change a list. */
  datatype Change =
    | Add(item: Item)
    | InsertAt(which: int, item: Item)
    | DetachAt(which: int)
    | ReplaceAt(which: int, item: Item)

  /** The same changes on a sequence; positions outside it change nothing, except that
      inserting behind it adds at the end. */
  ghost function Changed(s: seq<Item>, change: Change): seq<Item> {
    match change
    case Add(item) => s + [item]
    case InsertAt(which, item) =>
      if which < 0 then s else if which < |s| then s[..which] + [item] + s[which..] else s + [item]
    case DetachAt(which) => if 0 <= which < |s| then s[..which] + s[which + 1..] else s
    case ReplaceAt(which, item) => if 0 <= which < |s| then s[which := item] else s
  }

  ghost function AllChanged(s: seq<Item>, changes: seq<Change>): seq<Item>
    decreases |changes|
  {
    if changes == [] then s else AllChanged(Changed(s, changes[0]), changes[1..])
  }

  /** The item a change frees: replacing an item deletes it. */
  ghost function Freed(s: seq<Item>, change: Change): set<Item> {
    if change.ReplaceAt? && 0 <= change.which < |s| then {s[change.which]} else {}
  }

  /** Every change brings in an item that is not in the list at that time, is not the
      list's owner, and was not freed before. Detached items may come back. */
  ghost predicate Legal(owner: Item, s: seq<Item>, freed: set<Item>, changes: seq<Change>)
    decreases |changes|
  {
    changes != [] ==>
      && (!changes[0].DetachAt? ==> changes[0].item !in s && changes[0].item != owner && changes[0].item !in freed)
      && Legal(owner, Changed(s, changes[0]), freed + Freed(s, changes[0]), changes[1..])
  }

  /** Every item the changes bring in. */
  ghost function Brought(changes: seq<Change>): set<Item> {
    set i | 0 <= i < |changes| && !changes[i].DetachAt? :: changes[i].item
  }

  /** No item outside the list has a `next`. */
  ghost predicate Loose(items: set<Item>, s: seq<Item>)
    reads items`next
  {
    forall x :: x in items && x !in s ==> x.next == null
  }

  lemma OthersStay<T>(s: seq<T>, k: nat, x: T)
    requires k < |s|
    ensures forall y :: y in s ==> y in s[..k] + s[k + 1..] || y == s[k]
    ensures forall y :: y in s ==> y in s[k := x] || y == s[k]
  {
    forall y | y in s
      ensures (y in s[..k] + s[k + 1..] || y == s[k]) && (y in s[k := x] || y == s[k])
    {
      var i :| 0 <= i < |s| && s[i] == y;
      assert i < k ==> (s[..k] + s[k + 1..])[i] == y;
      assert i > k ==> (s[..k] + s[k + 1..])[i - 1] == y;
      assert i != k ==> s[k := x][i] == y;
    }
  }

  lemma {:induction false} OwnerNotBrought(owner: Item, s: seq<Item>, freed: set<Item>, changes: seq<Change>)
    requires Legal(owner, s, freed, changes)
    ensures owner !in Brought(changes)
    decreases |changes|
  {
    if changes != [] {
      OwnerNotBrought(owner, Changed(s, changes[0]), freed + Freed(s, changes[0]), changes[1..]);
      assert forall i :: 1 <= i < |changes| ==> changes[i] == changes[1..][i - 1];
    }
  }

  /** What a change needs and keeps: the list and the items it may bring in. */
  ghost predicate Applicable(list: Item, items: set<Item>)
    reads list`child, list`children, list.children`next, list.children`prev, items`next
  {
    && list.Valid() && list !in items && (forall x :: x in list.children ==> x in items)
    && Loose(items, list.children)
  }

  method ApplyDetach(list: Item, which: int, ghost items: set<Item>)
    requires Applicable(list, items)
    modifies list`child, list`children, items`next, items`prev
    ensures Applicable(list, items) && list.children == Changed(old(list.children), DetachAt(which))
  {
    hide Item.Linked;
    ghost var was := list.children;
    var item := list.DetachAt(which);
    forall x | x in items && x !in list.children
      ensures x.next == null
    {
      if 0 <= which < |was| {
        OthersStay(was, which, list);
        assert x in was ==> x == was[which];
      }
    }
  }

  method ApplyReplace(list: Item, which: int, item: Item, ghost items: set<Item>)
    requires Applicable(list, items) && item !in list.children && item in items
    modifies list`child, list`children, items`next, items`prev
    ensures Applicable(list, items) && list.children == Changed(old(list.children), ReplaceAt(which, item))
  {
    hide Item.Linked;
    ghost var was := list.children;
    var ok := list.ReplaceAt(which, item);
    forall x | x in items && x !in list.children
      ensures x.next == null
    {
      if 0 <= which < |was| {
        OthersStay(was, which, item);
        assert item == list.children[which];
        assert x in was ==> x == was[which];
      }
    }
  }

  method ApplyInsert(list: Item, which: int, item: Item, ghost items: set<Item>)
    requires Applicable(list, items) && item !in list.children && item in items
    modifies list`child, list`children, items`next, items`prev
    ensures Applicable(list, items) && list.children == Changed(old(list.children), InsertAt(which, item))
  {
    hide Item.Linked;
    var ok := list.InsertItem(which, item);
  }

  method Apply(list: Item, change: Change, ghost items: set<Item>)
    requires Applicable(list, items)
    requires !change.DetachAt? ==> change.item !in list.children && change.item in items
    modifies list`child, list`children, items`next, items`prev
    ensures Applicable(list, items) && list.children == Changed(old(list.children), change)
  {
    hide Item.Linked;
    match change
    case Add(item) => var ok := list.AddItem(item);
    case InsertAt(which, item) => ApplyInsert(list, which, item, items);
    case DetachAt(which) => ApplyDetach(list, which, items);
    case ReplaceAt(which, item) => ApplyReplace(list, which, item, items);
  }

  lemma OwnerOutside(list: Item)
    requires list.Valid()
    ensures list !in list.children
  {
  }

  /** Any sequence of changes keeps the chain well formed, and does to its contents what
      the same changes do to a sequence. */
  method ApplyAll(list: Item, changes: seq<Change>)
    requires list.Valid() && Legal(list, list.children, {}, changes)
    requires Loose(Brought(changes), list.children)
    modifies list`child, list`children, list.children`next, list.children`prev
    modifies Brought(changes)`next, Brought(changes)`prev
    ensures list.Valid() && list.children == AllChanged(old(list.children), changes)
  {
    hide Item.Valid, Item.Linked, Changed, Freed;
    OwnerOutside(list);
    ghost var items := Brought(changes) + set x | x in list.children;
    OwnerNotBrought(list, list.children, {}, changes);
    var i := 0;
    ghost var freed: set<Item> := {};
    while i < |changes|
      invariant 0 <= i <= |changes| && Applicable(list, items)
      invariant Legal(list, list.children, freed, changes[i..])
      invariant AllChanged(list.children, changes[i..]) == AllChanged(old(list.children), changes)
    {
      assert changes[i..][1..] == changes[i + 1..];
      freed := freed + Freed(list.children, changes[i]);
      Apply(list, changes[i], items);
      i := i + 1;
    }
  }
}
