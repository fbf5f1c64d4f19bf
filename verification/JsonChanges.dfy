/** Changing the children of an array that stands for a tree (cJSON_AddItemToArray,
    cJSON_InsertItemInArray, cJSON_DetachItemFromArray and cJSON_ReplaceItemInArray in
    src/third-party/cJSON.c). */
module JsonChanges {
  import opened Bytes
  import opened Json
  import opened JsonTree
  import opened SiblingList

  /** The items in play, in the list or not, with the trees they stand for: they have nothing in
      common with each other, and the list is not below any of them. */
  ghost predicate InPlay(list: Item, trees: map<Item, Json>)
    reads trees.Keys, set x, y | x in trees && y in x.below :: y
  {
    && list !in trees
    && (forall x :: x in trees ==> Represents(x, trees[x], true) && list !in x.below && x !in x.below)
    && (forall x, y :: x in trees && y in trees && x != y ==> x !in y.below && x.below !! y.below)
  }

  ghost predicate AllIn(s: seq<Item>, trees: map<Item, Json>) {
    forall k :: 0 <= k < |s| ==> s[k] in trees
  }

  ghost function TreesOf(s: seq<Item>, trees: map<Item, Json>): (js: seq<Json>)
    requires AllIn(s, trees)
    ensures |js| == |s|
  {
    seq(|s|, k requires 0 <= k < |s| => trees[s[k]])
  }

  // ----- the same changes on trees -----

  ghost predicate Brings(change: Change, trees: map<Item, Json>) {
    !change.DetachAt? ==> change.item in trees
  }

  ghost function ChangedTrees(js: seq<Json>, change: Change, trees: map<Item, Json>): seq<Json>
    requires Brings(change, trees)
  {
    match change
    case Add(item) => js + [trees[item]]
    case InsertAt(which, item) =>
      if which < 0 then js
      else if which < |js| then js[..which] + [trees[item]] + js[which..]
      else js + [trees[item]]
    case DetachAt(which) => if 0 <= which < |js| then js[..which] + js[which + 1..] else js
    case ReplaceAt(which, item) => if 0 <= which < |js| then js[which := trees[item]] else js
  }

  ghost function AllChangedTrees(js: seq<Json>, changes: seq<Change>, trees: map<Item, Json>): seq<Json>
    requires forall k :: 0 <= k < |changes| ==> Brings(changes[k], trees)
    decreases |changes|
  {
    if changes == [] then js else AllChangedTrees(ChangedTrees(js, changes[0], trees), changes[1..], trees)
  }

  lemma TreesJoin(s: seq<Item>, t: seq<Item>, trees: map<Item, Json>)
    requires AllIn(s, trees) && AllIn(t, trees)
    ensures AllIn(s + t, trees) && TreesOf(s + t, trees) == TreesOf(s, trees) + TreesOf(t, trees)
  {
  }

  lemma TreesSplit(s: seq<Item>, at: nat, trees: map<Item, Json>)
    requires AllIn(s, trees) && at <= |s|
    ensures AllIn(s[..at], trees) && TreesOf(s[..at], trees) == TreesOf(s, trees)[..at]
    ensures AllIn(s[at..], trees) && TreesOf(s[at..], trees) == TreesOf(s, trees)[at..]
  {
  }

  lemma TreeOfOne(item: Item, trees: map<Item, Json>)
    requires item in trees
    ensures AllIn([item], trees) && TreesOf([item], trees) == [trees[item]]
  {
  }

  lemma TreesReplaced(s: seq<Item>, at: nat, item: Item, trees: map<Item, Json>)
    requires AllIn(s, trees) && at < |s| && item in trees
    ensures AllIn(s[at := item], trees) && TreesOf(s[at := item], trees) == TreesOf(s, trees)[at := trees[item]]
  {
  }

  lemma ChangedAreTrees(s: seq<Item>, change: Change, trees: map<Item, Json>)
    requires AllIn(s, trees) && Brings(change, trees)
    ensures AllIn(Changed(s, change), trees)
    ensures TreesOf(Changed(s, change), trees) == ChangedTrees(TreesOf(s, trees), change, trees)
  {
    hide AllIn, TreesOf;
    if !change.DetachAt? {
      TreeOfOne(change.item, trees);
      TreesJoin(s, [change.item], trees);
    }
    if !change.Add? && 0 <= change.which < |s| {
      var at := change.which;
      TreesSplit(s, at, trees);
      match change
      case InsertAt(_, item) =>
        TreesJoin(s[..at], [item], trees);
        TreesJoin(s[..at] + [item], s[at..], trees);
      case DetachAt(_) =>
        TreesSplit(s, at + 1, trees);
        TreesJoin(s[..at], s[at + 1..], trees);
      case ReplaceAt(_, item) =>
        TreesReplaced(s, at, item, trees);
    }
  }

  lemma {:induction false} AllChangedAreTrees(s: seq<Item>, changes: seq<Change>, trees: map<Item, Json>)
    requires AllIn(s, trees) && forall k :: 0 <= k < |changes| ==> Brings(changes[k], trees)
    ensures AllIn(AllChanged(s, changes), trees)
    ensures TreesOf(AllChanged(s, changes), trees) == AllChangedTrees(TreesOf(s, trees), changes, trees)
    decreases |changes|
  {
    hide Changed, ChangedTrees;
    if changes != [] {
      ChangedAreTrees(s, changes[0], trees);
      AllChangedAreTrees(Changed(s, changes[0]), changes[1..], trees);
    }
  }

  // ----- a list of items in play -----

  /** The items and everything below them. */
  ghost function Everything(s: seq<Item>): set<Item>
    reads s`below
  {
    if s == [] then {} else Everything(s[..|s| - 1]) + {s[|s| - 1]} + s[|s| - 1].below
  }

  lemma {:induction false} EverythingBelow(s: seq<Item>, k: nat)
    requires k < |s|
    ensures s[k] in Everything(s) && s[k].below <= Everything(s)
  {
    if k < |s| - 1 {
      EverythingBelow(s[..|s| - 1], k);
    }
  }

  lemma {:induction false} NothingElse(s: seq<Item>, x: Item)
    requires forall k :: 0 <= k < |s| ==> x != s[k] && x !in s[k].below
    ensures x !in Everything(s)
  {
    if s != [] {
      NothingElse(s[..|s| - 1], x);
    }
  }

  lemma {:induction false} ItemsAreForest(list: Item, s: seq<Item>, trees: map<Item, Json>)
    requires InPlay(list, trees) && AllIn(s, trees) && Distinct(s)
    ensures Forest(s, Everything(s)) && list !in Everything(s)
  {
    hide Represents;
    if s != [] {
      var n := |s| - 1;
      ItemsAreForest(list, s[..n], trees);
      NothingElse(s[..n], s[n]);
      forall x | x in s[n].below
        ensures x !in Everything(s[..n])
      {
        forall k | 0 <= k < n
          ensures x != s[..n][k] && x !in s[..n][k].below
        {
          assert s[k] in trees && s[k] != s[n];
        }
        NothingElse(s[..n], x);
      }
      assert Everything(s) - {s[n]} - s[n].below == Everything(s[..n]);
    }
  }

  lemma BelowTheList(list: Item, trees: map<Item, Json>)
    requires InPlay(list, trees) && AllIn(list.children, trees) && list.below == Everything(list.children)
    ensures Owned(list)
    ensures forall k :: 0 <= k < |list.children| ==>
              Represents(list.children[k], TreesOf(list.children, trees)[k], true)
  {
    hide Represents, Everything;
    forall k | 0 <= k < |list.children|
      ensures list.children[k] in list.below && list.children[k].below <= list.below
    {
      EverythingBelow(list.children, k);
    }
  }

  lemma ArrayOfChildren(list: Item, js: seq<Json>)
    requires list.value == Array(NoElement) && Listed(Chain(js)) == js
    requires Children(list, js, true, ElementsNesting(Chain(js)))
    ensures Represents(list, Array(Chain(js)), true)
  {
    hide Children, Chain, Listed;
  }

  /** A well-formed list of items in play stands for the array of their trees. */
  lemma StandsForTrees(list: Item, trees: map<Item, Json>)
    requires list.Valid() && InPlay(list, trees) && AllIn(list.children, trees)
    requires list.value == Array(NoElement) && list.below == Everything(list.children)
    ensures Represents(list, Array(Chain(TreesOf(list.children, trees))), true)
  {
    hide Forest, Distinct, Item.Forward, Item.Backward, Represents, Everything, InPlay;
    var js := TreesOf(list.children, trees);
    ListedChain(js);
    ItemsAreForest(list, list.children, trees);
    BelowTheList(list, trees);
    ArrayOfChildren(list, js);
  }

  /** Any sequence of changes to an array does to its tree what the same changes do to a sequence
      of trees, and every item in play goes on standing for its tree. */
  method ChangeArray(list: Item, changes: seq<Change>, ghost es: Elements, ghost trees: map<Item, Json>)
    requires Represents(list, Array(es), true) && InPlay(list, trees) && AllIn(list.children, trees)
    requires forall k :: 0 <= k < |changes| ==> Brings(changes[k], trees)
    requires Legal(list, list.children, {}, changes) && Loose(Brought(changes), list.children)
    modifies list`child, list`children, list`below, trees.Keys`next, trees.Keys`prev
    ensures Represents(list, Array(Chain(AllChangedTrees(Listed(es), changes, trees))), true)
    ensures InPlay(list, trees) && list.children == AllChanged(old(list.children), changes)
  {
    hide Represents, InPlay, Legal, AllChanged, AllChangedTrees, Everything, Item.Valid, Brings, Loose;
    ArrayIsValid(list, es, trees);
    AllChangedAreTrees(list.children, changes, trees);
    ChangeItems(list, changes, trees);
    StandsForTrees(list, trees);
  }

  /** The same, as far as the items go. */
  method ChangeItems(list: Item, changes: seq<Change>, ghost trees: map<Item, Json>)
    requires list.Valid() && InPlay(list, trees) && AllIn(list.children, trees)
    requires forall k :: 0 <= k < |changes| ==> Brings(changes[k], trees)
    requires Legal(list, list.children, {}, changes) && Loose(Brought(changes), list.children)
    modifies list`child, list`children, list`below, trees.Keys`next, trees.Keys`prev
    ensures list.Valid() && InPlay(list, trees) && list.children == AllChanged(old(list.children), changes)
    ensures list.below == Everything(list.children)
  {
    hide Represents, Legal, AllChanged, AllChangedTrees, TreesOf, Everything, Item.Valid, Loose;
    AllChangedAreTrees(list.children, changes, trees);
    ApplyAll(list, changes);
    list.below := Everything(list.children);
  }

  lemma ArrayIsValid(list: Item, es: Elements, trees: map<Item, Json>)
    requires Represents(list, Array(es), true) && InPlay(list, trees) && AllIn(list.children, trees)
    ensures list.Valid() && list.value == Array(NoElement) && TreesOf(list.children, trees) == Listed(es)
  {
    hide Forest, Distinct, Item.Forward, Item.Backward;
    forall k | 0 <= k < |list.children|
      ensures trees[list.children[k]] == Listed(es)[k]
    {
      OneTree(list.children[k], trees[list.children[k]], Listed(es)[k], true);
    }
  }
}
