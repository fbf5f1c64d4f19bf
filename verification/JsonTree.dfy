/** The tree of linked items that stands for a JSON tree. */
module JsonTree {
  import opened Bytes
  import opened Json
  import opened SiblingList

  /** `all` is the items and everything below them, each item and what is below it apart from
      the others. */
  ghost predicate Forest(items: seq<Item>, all: set<Item>)
    reads all`below
    decreases |items|
  {
    if items == [] then all == {}
    else
      var last := items[|items| - 1];
      && last in all && last !in last.below && last.below <= all
      && Forest(items[..|items| - 1], all - {last} - last.below)
  }

  lemma NoForest(all: set<Item>)
    requires Forest([], all)
    ensures all == {}
  {
  }

  lemma {:induction false} ForestMember(items: seq<Item>, all: set<Item>, k: nat)
    requires Forest(items, all) && k < |items|
    ensures items[k] in all && items[k].below <= all && items[k] !in items[k].below
    decreases |items|
  {
    var last := items[|items| - 1];
    if k < |items| - 1 {
      ForestMember(items[..|items| - 1], all - {last} - last.below, k);
    }
  }

  /** No item is below another. */
  lemma {:induction false} ForestApart(items: seq<Item>, all: set<Item>, k: nat, m: nat)
    requires Forest(items, all) && k < |items| && m < |items|
    ensures items[m] !in items[k].below
    decreases |items|
  {
    var n := |items| - 1;
    var rest := all - {items[n]} - items[n].below;
    if k < n {
      ForestMember(items[..n], rest, k);
    }
    if m < n {
      ForestMember(items[..n], rest, m);
    }
    if k < n && m < n {
      ForestApart(items[..n], rest, k, m);
    }
  }

  lemma ForestSnoc(items: seq<Item>, all: set<Item>, item: Item)
    requires Forest(items, all) && item !in all && item !in item.below && item.below !! all
    ensures Forest(items + [item], all + {item} + item.below)
  {
    var more := all + {item} + item.below;
    assert (items + [item])[..|items|] == items;
    assert more - {item} - item.below == all;
  }

  /** The item and everything below it stand for the tree `j`. With `tails`, every list has the
      link from its first item to its last; without, no list has it. */
  ghost predicate Represents(item: Item, j: Json, tails: bool)
    reads item`value, item`child, item`children, item`below, item.below
    decreases Nesting(j), 0
  {
    match j
    case Array(elements) =>
      item.value == Array(NoElement) && Children(item, Listed(elements), tails, ElementsNesting(elements))
    case Object(members) =>
      && item.value == Object(NoMember)
      && Children(item, Items(ListedMembers(members)), tails, MembersNesting(members))
      && HaveNames(item, ListedMembers(members))
    case _ => item.value == j && item.child == null && item.children == [] && item.below == {}
  }

  ghost function Items(members: seq<Named>): (items: seq<Json>)
    ensures |items| == |members| && forall k :: 0 <= k < |items| ==> items[k] == members[k].item
  {
    seq(|members|, k requires 0 <= k < |members| => members[k].item)
  }

  ghost predicate Children(item: Item, items: seq<Json>, tails: bool, bound: nat)
    requires forall k :: 0 <= k < |items| ==> Nesting(items[k]) <= bound
    reads item`child, item`children, item`below, item.below
    decreases bound, 1
  {
    && item !in item.below && Forest(item.children, item.below) && Owned(item)
    && item.Linked() && HasTail(item, tails)
    && |item.children| == |items|
    && forall k :: 0 <= k < |items| ==> Represents(item.children[k], items[k], tails)
  }

  /** The children and what is below them is below the item. */
  ghost predicate Owned(item: Item)
    reads item`children, item`below, item.below
  {
    forall k :: 0 <= k < |item.children| ==> item.children[k] in item.below && item.children[k].below <= item.below
  }

  ghost predicate HasTail(item: Item, tails: bool)
    requires Owned(item)
    reads item`children, item`below, item.below
  {
    item.children != [] ==>
      item.children[0].prev == if tails then item.children[|item.children| - 1] else null
  }

  ghost predicate HaveNames(item: Item, members: seq<Named>)
    requires Owned(item)
    reads item`children, item`below, item.below
  {
    |item.children| == |members| && forall k :: 0 <= k < |members| ==> item.children[k].name == members[k].key
  }

  lemma NotBelowItself(item: Item, j: Json, tails: bool)
    requires Represents(item, j, tails)
    ensures item !in item.below
  {
  }

  /** An item stands for one tree only. */
  lemma {:induction false} OneTree(item: Item, j: Json, k: Json, tails: bool)
    requires Represents(item, j, tails) && Represents(item, k, tails)
    ensures j == k
    decreases Nesting(j), 0
  {
    hide Forest, HasTail, Item.Linked;
    match j
    case Array(elements) =>
      var bound, other := ElementsNesting(elements), ElementsNesting(k.elements);
      OneList(item, Listed(elements), Listed(k.elements), tails, bound, other);
      ChainListed(elements);
      ChainListed(k.elements);
    case Object(members) =>
      var these, those := ListedMembers(members), ListedMembers(k.members);
      OneList(item, Items(these), Items(those), tails, MembersNesting(members), MembersNesting(k.members));
      assert forall i :: 0 <= i < |these| ==> these[i].item == Items(these)[i] && those[i].item == Items(those)[i];
      assert these == those;
      MemberChainListed(members);
      MemberChainListed(k.members);
    case _ =>
  }

  lemma {:induction false} OneList(item: Item, these: seq<Json>, those: seq<Json>, tails: bool, bound: nat, other: nat)
    requires forall k :: 0 <= k < |these| ==> Nesting(these[k]) <= bound
    requires forall k :: 0 <= k < |those| ==> Nesting(those[k]) <= other
    requires Children(item, these, tails, bound) && Children(item, those, tails, other)
    ensures these == those
    decreases bound, 1
  {
    hide Forest, HasTail, Item.Linked;
    forall k | 0 <= k < |these|
      ensures these[k] == those[k]
    {
      OneTree(item.children[k], these[k], those[k], tails);
    }
  }

  // ----- walking along a list -----

  ghost predicate Below(item: Item, parent: Item)
    reads item`below, parent`below
  {
    item in parent.below && item.below <= parent.below
  }

  /** The item a walk along `next` stands at after `at` steps. */
  ghost predicate StandsAt(parent: Item, at: nat, item: Item?)
    reads parent`children
  {
    at <= |parent.children| && item == if at < |parent.children| then parent.children[at] else null
  }

  lemma WalkStarts(parent: Item, items: seq<Json>, tails: bool, bound: nat)
    requires (forall k :: 0 <= k < |items| ==> Nesting(items[k]) <= bound) && Children(parent, items, tails, bound)
    ensures StandsAt(parent, 0, parent.child) && |parent.children| == |items|
  {
  }

  lemma WalkStands(parent: Item, items: seq<Json>, tails: bool, bound: nat, at: nat, item: Item)
    requires (forall k :: 0 <= k < |items| ==> Nesting(items[k]) <= bound) && Children(parent, items, tails, bound)
    requires StandsAt(parent, at, item)
    ensures at < |items| == |parent.children| && Represents(item, items[at], tails) && Below(item, parent)
    ensures StandsAt(parent, at + 1, item.next)
  {
    parent.Neighbours(at);
  }

  /** `rest` is the members from `at` on. */
  ghost predicate IsRest(ms: Members, at: nat, rest: Members) {
    at <= |ListedMembers(ms)| && ListedMembers(rest) == ListedMembers(ms)[at..]
  }

  lemma ObjectStarts(parent: Item, ms: Members, tails: bool)
    requires Represents(parent, Object(ms), tails)
    ensures StandsAt(parent, 0, parent.child) && IsRest(ms, 0, ms)
  {
    WalkStarts(parent, Items(ListedMembers(ms)), tails, MembersNesting(ms));
  }

  /** The member a walk stands at. */
  lemma MemberStands(parent: Item, ms: Members, tails: bool, at: nat, item: Item, rest: Members)
    requires Represents(parent, Object(ms), tails) && StandsAt(parent, at, item) && IsRest(ms, at, rest)
    ensures rest.Member? && item.name == rest.key && Represents(item, rest.item, tails) && Below(item, parent)
    ensures StandsAt(parent, at + 1, item.next) && IsRest(ms, at + 1, rest.next) && at < |parent.children|
  {
    hide Forest;
    WalkStands(parent, Items(ListedMembers(ms)), tails, MembersNesting(ms), at, item);
    assert ListedMembers(ms)[at..][0] == ListedMembers(ms)[at];
    assert ListedMembers(ms)[at..][1..] == ListedMembers(ms)[at + 1..];
  }

  lemma ObjectEnds(parent: Item, ms: Members, tails: bool, at: nat, item: Item?, rest: Members)
    requires Represents(parent, Object(ms), tails) && StandsAt(parent, at, item) && IsRest(ms, at, rest)
    ensures item == null <==> rest.NoMember?
  {
    WalkStarts(parent, Items(ListedMembers(ms)), tails, MembersNesting(ms));
  }

  ghost predicate IsRestElements(es: Elements, at: nat, rest: Elements) {
    at <= |Listed(es)| && Listed(rest) == Listed(es)[at..]
  }

  lemma ArrayStarts(parent: Item, es: Elements, tails: bool)
    requires Represents(parent, Array(es), tails)
    ensures StandsAt(parent, 0, parent.child) && IsRestElements(es, 0, es)
  {
    WalkStarts(parent, Listed(es), tails, ElementsNesting(es));
  }

  /** The element a walk stands at. */
  lemma ElementStands(parent: Item, es: Elements, tails: bool, at: nat, item: Item, rest: Elements)
    requires Represents(parent, Array(es), tails) && StandsAt(parent, at, item) && IsRestElements(es, at, rest)
    ensures rest.Element? && Represents(item, rest.item, tails) && Below(item, parent)
    ensures StandsAt(parent, at + 1, item.next) && IsRestElements(es, at + 1, rest.next) && at < |parent.children|
  {
    hide Forest;
    WalkStands(parent, Listed(es), tails, ElementsNesting(es), at, item);
    assert Listed(es)[at..][0] == Listed(es)[at];
    assert Listed(es)[at..][1..] == Listed(es)[at + 1..];
  }

  lemma ArrayEnds(parent: Item, es: Elements, tails: bool, at: nat, item: Item?, rest: Elements)
    requires Represents(parent, Array(es), tails) && StandsAt(parent, at, item) && IsRestElements(es, at, rest)
    ensures item == null <==> rest.NoElement?
  {
    WalkStarts(parent, Listed(es), tails, ElementsNesting(es));
  }

  // ----- the items of a forest -----

  lemma ForestFacts(items: seq<Item>, all: set<Item>)
    requires Forest(items, all)
    ensures forall k :: 0 <= k < |items| ==> items[k] in all && items[k].below <= all
    ensures forall k, m :: 0 <= k < |items| && 0 <= m < |items| ==> items[m] !in items[k].below
  {
    forall k | 0 <= k < |items|
      ensures items[k] in all && items[k].below <= all
    {
      ForestMember(items, all, k);
    }
    forall k, m | 0 <= k < |items| && 0 <= m < |items|
      ensures items[m] !in items[k].below
    {
      ForestApart(items, all, k, m);
    }
  }

  // ----- lists under construction -----

  /** The items of a list while it is built, what they stand for, and everything they hold. */
  datatype Branches = Branches(nodes: seq<Item>, items: seq<Json>, all: set<Item>)
  {
    /** Each item stands for its tree, apart from the others. */
    ghost predicate Held(tails: bool)
      reads all
    {
      && Forest(nodes, all) && |nodes| == |items|
      && (forall k :: 0 <= k < |nodes| ==> nodes[k] in all && nodes[k].below <= all)
      && forall k :: 0 <= k < |nodes| ==> Represents(nodes[k], items[k], tails)
    }

    ghost predicate Linked(head: Item?, current: Item?, tails: bool)
      reads all
    {
      Held(tails) && Chained(nodes, head, current)
    }

    /** A new item is already linked behind the others, but does not stand for a tree yet. */
    ghost predicate Pending(head: Item?, item: Item, tails: bool)
      reads all, item`next, item`prev
    {
      Held(tails) && item !in all && Chained(nodes + [item], head, item)
    }

    ghost predicate Named(names: seq<Text>)
      reads all
    {
      |names| == |nodes| && forall k :: 0 <= k < |nodes| ==> nodes[k] in all && nodes[k].name == names[k]
    }

    ghost function With(item: Item, j: Json): Branches
      reads item`below
    {
      Branches(nodes + [item], items + [j], all + {item} + item.below)
    }
  }

  lemma EmptyBranches(tails: bool)
    ensures Branches([], [], {}).Linked(null, null, tails) && Branches([], [], {}).Named([])
  {
  }

  /** The items of a list are among what it holds, and its ends are known. */
  lemma Ends(b: Branches, head: Item?, current: Item?, tails: bool)
    requires b.Linked(head, current, tails)
    ensures forall x :: x in b.nodes ==> x in b.all
    ensures b.nodes != [] ==> head == b.nodes[0] && head in b.all && current == b.nodes[|b.nodes| - 1]
  {
  }

  /** An item with nothing below it, as a list. */
  lemma EmptyList(item: Item, tails: bool)
    requires item.child == null && item.children == [] && item.below == {}
    ensures item.value == Array(NoElement) ==> Represents(item, Array(NoElement), tails)
    ensures item.value == Object(NoMember) ==> Represents(item, Object(NoMember), tails)
  {
  }

  /** A new item is linked behind the last one. */
  method Grow(head: Item?, current: Item?, item: Item, ghost b: Branches, ghost tails: bool) returns (newHead: Item)
    requires b.Linked(head, current, tails) && item !in b.all && item.next == null && item.prev == null
    modifies b.nodes`next, item`prev
    ensures b.Pending(newHead, item, tails)
  {
    hide Chained, Represents, Forest;
    ForestFacts(b.nodes, b.all);
    newHead := AppendItem(head, current, item, b.nodes);
  }

  /** Once it stands for a tree, the list has grown. */
  lemma Grown(b: Branches, head: Item?, item: Item, j: Json, tails: bool)
    requires b.Pending(head, item, tails) && Represents(item, j, tails) && item !in item.below && item.below !! b.all
    ensures b.With(item, j).Linked(head, item, tails)
  {
    hide Chained, Represents, Forest;
    ForestSnoc(b.nodes, b.all, item);
  }

  /** The first item of a finished list gets the link to the last one. */
  method LinkTail(head: Item, current: Item, ghost b: Branches)
    requires b.Linked(head, current, true) && b.nodes != []
    modifies head`prev
    ensures b.Held(true) && Distinct(b.nodes) && Item.Forward(b.nodes) && Item.Backward(b.nodes)
    ensures head.prev == current
  {
    hide Represents, Forest;
    ForestFacts(b.nodes, b.all);
    head.prev := current;
  }

  /** The list hangs on an item. */
  lemma Hangs(item: Item, b: Branches, tails: bool, bound: nat)
    requires b.Held(tails) && Distinct(b.nodes) && Item.Forward(b.nodes) && Item.Backward(b.nodes)
    requires b.nodes != [] ==> b.nodes[0].prev == if tails then b.nodes[|b.nodes| - 1] else null
    requires item !in b.all && item.children == b.nodes && item.below == b.all
    requires item.child == if b.nodes == [] then null else b.nodes[0]
    requires forall k :: 0 <= k < |b.items| ==> Nesting(b.items[k]) <= bound
    ensures Children(item, b.items, tails, bound) && item !in item.below
  {
    hide Represents, Forest, Distinct;
  }

  lemma HangsArray(item: Item, b: Branches, tails: bool)
    requires b.Held(tails) && Distinct(b.nodes) && Item.Forward(b.nodes) && Item.Backward(b.nodes)
    requires b.nodes != [] ==> b.nodes[0].prev == if tails then b.nodes[|b.nodes| - 1] else null
    requires item !in b.all && item.children == b.nodes && item.below == b.all
    requires item.child == if b.nodes == [] then null else b.nodes[0]
    requires item.value == Array(NoElement)
    ensures Represents(item, Array(Chain(b.items)), tails) && item !in item.below
  {
    hide Forest, Distinct, Children;
    ListedChain(b.items);
    Hangs(item, b, tails, ElementsNesting(Chain(b.items)));
  }

  lemma HangsObject(item: Item, b: Branches, names: seq<Text>, tails: bool)
    requires b.Held(tails) && Distinct(b.nodes) && Item.Forward(b.nodes) && Item.Backward(b.nodes)
    requires b.nodes != [] ==> b.nodes[0].prev == if tails then b.nodes[|b.nodes| - 1] else null
    requires item !in b.all && item.children == b.nodes && item.below == b.all
    requires item.child == if b.nodes == [] then null else b.nodes[0]
    requires item.value == Object(NoMember) && b.Named(names)
    ensures Represents(item, Object(MemberChain(Zip(names, b.items))), tails) && item !in item.below
  {
    hide Forest, Distinct;
    var members := Zip(names, b.items);
    ListedMemberChain(members);
    assert Items(members) == b.items;
    Hangs(item, b, tails, MembersNesting(MemberChain(members)));
  }

  function Zip(names: seq<Text>, items: seq<Json>): seq<Named>
    requires |names| == |items|
  {
    seq(|names|, k requires 0 <= k < |names| => Named(names[k], items[k]))
  }

  lemma ZipSnoc(names: seq<Text>, items: seq<Json>, m: Named)
    requires |names| == |items|
    ensures Zip(names + [m.key], items + [m.item]) == Zip(names, items) + [m]
  {
  }

  /** The end of parse_array: the finished list is hung on its item. */
  method HangArray(item: Item, head: Item, current: Item, ghost b: Branches)
    requires b.Linked(head, current, true) && b.nodes != [] && item !in b.all
    modifies head`prev, item`value, item`child, item`children, item`below
    ensures Represents(item, Array(Chain(b.items)), true) && item !in item.below && item.below == b.all
  {
    hide Represents, Forest, Distinct;
    LinkTail(head, current, b);
    item.value := Array(NoElement);
    item.child := head;
    item.children, item.below := b.nodes, b.all;
    HangsArray(item, b, true);
  }

  /** The end of parse_object. */
  method HangObject(item: Item, head: Item, current: Item, ghost b: Branches, ghost names: seq<Text>)
    requires b.Linked(head, current, true) && b.nodes != [] && item !in b.all && b.Named(names)
    modifies head`prev, item`value, item`child, item`children, item`below
    ensures |names| == |b.items|
    ensures Represents(item, Object(MemberChain(Zip(names, b.items))), true)
    ensures item !in item.below && item.below == b.all
  {
    hide Represents, Forest, Distinct;
    LinkTail(head, current, b);
    item.value := Object(NoMember);
    item.child := head;
    item.children, item.below := b.nodes, b.all;
    HangsObject(item, b, names, true);
  }
}
