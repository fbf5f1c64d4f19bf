/** cJSON_Compare, get_object_item and cJSON_Duplicate (src/third-party/cJSON.c), on the items
    of trees whose numbers are integers. `cs` is case_sensitive. */
module JsonCompare {
  import opened Common
  import opened Bytes
  import opened Json
  import opened JsonTree
  import opened SiblingList

  // ----- names -----

  function Lower(b: Byte): Byte {
    if 0x41 <= b <= 0x5A then b + 0x20 else b
  }

  /** tolower, byte by byte. */
  function Fold(name: Text): Text {
    seq(|name|, i requires 0 <= i < |name| => Lower(name[i]))
  }

  /** Folding is byte by byte, and keeps apart all but small and capital letters. */
  lemma FoldedBytes(s: Text, t: Text)
    ensures Fold(s) == Fold(t) <==>
            |s| == |t| && forall i :: 0 <= i < |s| ==>
              || s[i] == t[i]
              || (0x41 <= s[i] <= 0x5A && t[i] == s[i] + 0x20)
              || (0x41 <= t[i] <= 0x5A && s[i] == t[i] + 0x20)
  {
    if Fold(s) == Fold(t) {
      forall i | 0 <= i < |s|
        ensures Lower(s[i]) == Lower(t[i])
      {
        assert Fold(s)[i] == Fold(t)[i];
      }
    }
  }

  /** What counts of a name, a C string: two names are the same when these are equal. */
  function Key(cs: bool, name: Text): Text {
    if cs then CString(name) else Fold(CString(name))
  }

  /** case_insensitive_strcmp(...) == 0, on two strings up to their NULs. */
  method SameIgnoringCase(s: Text, t: Text) returns (same: bool)
    ensures same <==> Fold(s) == Fold(t)
  {
    var i := 0;
    while i < |s| && i < |t| && Lower(s[i]) == Lower(t[i])
      invariant 0 <= i <= |s| && i <= |t|
      invariant forall k :: 0 <= k < i ==> Fold(s)[k] == Fold(t)[k]
    {
      i := i + 1;
    }
    same := i == |s| && i == |t|;
    if i < |s| && i < |t| {
      assert Fold(s)[i] != Fold(t)[i];
    }
  }

  // ----- what comparing means -----

  /** A tree with its objects taken as maps; of several members with one name, the first counts. */
  datatype Meaning =
    | Nothing
    | Truth(b: bool)
    | Amount(n: int)
    | Words(s: Text)
    | Row(items: seq<Meaning>)
    | Record(members: map<Text, Meaning>)

  ghost function MeaningOf(cs: bool, j: Json): Meaning
    requires Integral(j)
  {
    match j
    case Null => Nothing
    case False => Truth(false)
    case True => Truth(true)
    case Number(n) => Amount(n)
    case String(s) => Words(CString(s))
    case Array(elements) => Row(RowOf(cs, elements))
    case Object(members) => Record(RecordOf(cs, members))
  }

  ghost function RowOf(cs: bool, es: Elements): seq<Meaning>
    requires IntegralElements(es)
  {
    if es.NoElement? then [] else [MeaningOf(cs, es.item)] + RowOf(cs, es.next)
  }

  ghost function RecordOf(cs: bool, ms: Members): map<Text, Meaning>
    requires IntegralMembers(ms)
  {
    if ms.NoMember? then map[] else RecordOf(cs, ms.next)[Key(cs, ms.key) := MeaningOf(cs, ms.item)]
  }

  /** No object has two members with one name and different meanings. */
  ghost predicate Consistent(cs: bool, j: Json)
    requires Integral(j)
    decreases j
  {
    match j
    case Array(elements) => ConsistentElements(cs, elements)
    case Object(members) => AgreeWith(cs, members, RecordOf(cs, members))
    case _ => true
  }

  ghost predicate ConsistentElements(cs: bool, es: Elements)
    requires IntegralElements(es)
    decreases es
  {
    es.Element? ==> Consistent(cs, es.item) && ConsistentElements(cs, es.next)
  }

  /** Every member is consistent, and what `record` has under its name. */
  ghost predicate AgreeWith(cs: bool, ms: Members, record: map<Text, Meaning>)
    requires IntegralMembers(ms)
    decreases ms
  {
    ms.Member? ==>
      && Consistent(cs, ms.item)
      && Key(cs, ms.key) in record && record[Key(cs, ms.key)] == MeaningOf(cs, ms.item)
      && AgreeWith(cs, ms.next, record)
  }

  /** What cJSON_Compare decides. */
  ghost predicate Equal(cs: bool, a: Json, b: Json)
    requires Integral(a) && Integral(b)
  {
    Consistent(cs, a) && Consistent(cs, b) && MeaningOf(cs, a) == MeaningOf(cs, b)
  }

  // ----- sizes -----

  function Size(j: Json): nat {
    match j
    case Array(elements) => 1 + ElementsSize(elements)
    case Object(members) => 1 + MembersSize(members)
    case _ => 1
  }

  function ElementsSize(es: Elements): nat {
    if es.NoElement? then 0 else Size(es.item) + ElementsSize(es.next)
  }

  function MembersSize(ms: Members): nat {
    if ms.NoMember? then 0 else Size(ms.item) + MembersSize(ms.next)
  }

  // ----- looking members up -----

  /** The first member called `name`. */
  function Find(cs: bool, ms: Members, name: Text): Option<Json> {
    if ms.NoMember? then None
    else if Key(cs, ms.key) == Key(cs, name) then Some(ms.item)
    else Find(cs, ms.next, name)
  }

  lemma {:induction false} Found(cs: bool, ms: Members, name: Text)
    requires IntegralMembers(ms)
    ensures Find(cs, ms, name).Some? <==> Key(cs, name) in RecordOf(cs, ms)
    ensures Find(cs, ms, name).Some? ==>
              var j := Find(cs, ms, name).value;
              Integral(j) && MeaningOf(cs, j) == RecordOf(cs, ms)[Key(cs, name)] && Size(j) <= MembersSize(ms)
  {
    if ms.Member? {
      Found(cs, ms.next, name);
    }
  }

  lemma {:induction false} FoundConsistent(cs: bool, ms: Members, record: map<Text, Meaning>, name: Text)
    requires IntegralMembers(ms) && AgreeWith(cs, ms, record) && Find(cs, ms, name).Some?
    ensures Integral(Find(cs, ms, name).value) && Consistent(cs, Find(cs, ms, name).value)
  {
    if Key(cs, ms.key) != Key(cs, name) {
      FoundConsistent(cs, ms.next, record, name);
    }
  }

  /** get_object_item: the item of the first member called `name`. */
  method GetObjectItem(parent: Item, name: Text, cs: bool, ghost ms: Members, ghost tails: bool) returns (item: Item?)
    requires Represents(parent, Object(ms), tails)
    ensures item != null <==> Find(cs, ms, name).Some?
    ensures item != null ==> Represents(item, Find(cs, ms, name).value, tails) && Below(item, parent)
  {
    hide Represents, Key;
    ghost var rest, at := ms, 0;
    ObjectStarts(parent, ms, tails);
    item := parent.child;
    while item != null
      invariant StandsAt(parent, at, item) && IsRest(ms, at, rest)
      invariant Find(cs, ms, name) == Find(cs, rest, name)
      decreases |parent.children| - at
    {
      MemberStands(parent, ms, tails, at, item, rest);
      var same := SameName(item.name, name, cs);
      if same {
        return;
      }
      item, at, rest := item.next, at + 1, rest.next;
    }
    ObjectEnds(parent, ms, tails, at, item, rest);
  }

  method SameName(s: Text, t: Text, cs: bool) returns (same: bool)
    ensures same <==> Key(cs, s) == Key(cs, t)
  {
    if cs {
      return CString(s) == CString(t);
    }
    same := SameIgnoringCase(CString(s), CString(t));
  }

  // ----- comparing objects -----

  /** Every member of `ms` equals the first one of its name in `other`. */
  ghost predicate Matches(cs: bool, ms: Members, other: Members)
    requires IntegralMembers(ms) && IntegralMembers(other)
    decreases ms
  {
    ms.Member? ==>
      && Find(cs, other, ms.key).Some?
      && Integral(Find(cs, other, ms.key).value) && Equal(cs, ms.item, Find(cs, other, ms.key).value)
      && Matches(cs, ms.next, other)
  }

  lemma {:induction false} MatchesAgrees(cs: bool, ms: Members, other: Members)
    requires IntegralMembers(ms) && IntegralMembers(other) && Matches(cs, ms, other)
    ensures AgreeWith(cs, ms, RecordOf(cs, other))
  {
    if ms.Member? {
      Found(cs, other, ms.key);
      MatchesAgrees(cs, ms.next, other);
    }
  }

  lemma {:induction false} AgreeingMatches(cs: bool, ms: Members, other: Members, record: map<Text, Meaning>)
    requires IntegralMembers(ms) && IntegralMembers(other)
    requires AgreeWith(cs, ms, record) && AgreeWith(cs, other, record) && RecordOf(cs, other) == record
    ensures Matches(cs, ms, other)
    decreases ms
  {
    if ms.Member? {
      Found(cs, other, ms.key);
      FoundConsistent(cs, other, record, ms.key);
      AgreeingMatches(cs, ms.next, other, record);
    }
  }

  lemma {:induction false} AgreeingIsPart(cs: bool, ms: Members, record: map<Text, Meaning>)
    requires IntegralMembers(ms) && AgreeWith(cs, ms, record)
    ensures forall k :: k in RecordOf(cs, ms) ==> k in record && record[k] == RecordOf(cs, ms)[k]
  {
    if ms.Member? {
      AgreeingIsPart(cs, ms.next, record);
    }
  }

  /** Matching both ways is equality of the records, for consistent objects only. */
  lemma MatchBothWays(cs: bool, a: Members, b: Members)
    requires IntegralMembers(a) && IntegralMembers(b)
    ensures Matches(cs, a, b) && Matches(cs, b, a) <==> Equal(cs, Object(a), Object(b))
  {
    if Matches(cs, a, b) && Matches(cs, b, a) {
      MatchesAgrees(cs, a, b);
      MatchesAgrees(cs, b, a);
      AgreeingIsPart(cs, a, RecordOf(cs, b));
      AgreeingIsPart(cs, b, RecordOf(cs, a));
      assert RecordOf(cs, a) == RecordOf(cs, b);
    }
    if Equal(cs, Object(a), Object(b)) {
      AgreeingMatches(cs, a, b, RecordOf(cs, a));
      AgreeingMatches(cs, b, a, RecordOf(cs, a));
    }
  }

  // ----- comparing arrays -----

  ghost predicate EqualElements(cs: bool, a: Elements, b: Elements)
    requires IntegralElements(a) && IntegralElements(b)
  {
    ConsistentElements(cs, a) && ConsistentElements(cs, b) && RowOf(cs, a) == RowOf(cs, b)
  }

  lemma EqualElementsStep(cs: bool, a: Elements, b: Elements)
    requires IntegralElements(a) && IntegralElements(b)
    ensures a.Element? && b.Element? ==>
              (EqualElements(cs, a, b) <==> Equal(cs, a.item, b.item) && EqualElements(cs, a.next, b.next))
    ensures a.Element? != b.Element? ==> !EqualElements(cs, a, b)
  {
    if a.Element? && b.Element? {
      assert RowOf(cs, a)[0] == MeaningOf(cs, a.item) && RowOf(cs, b)[0] == MeaningOf(cs, b.item);
      assert RowOf(cs, a)[1..] == RowOf(cs, a.next) && RowOf(cs, b)[1..] == RowOf(cs, b.next);
    }
  }

  // ----- comparing -----

  /** Two items with nothing in common, or the same one. */
  ghost predicate Apart(a: Item, b: Item)
    reads a`below, b`below
  {
    a != b && a !in b.below && b !in a.below && a.below !! b.below
  }

  /** cJSON_Compare. Two pointers to one item compare equal whatever it holds; otherwise the
      items are equal exactly when both are consistent and mean the same. */
  method Compare(a: Item, b: Item, cs: bool, ghost x: Json, ghost y: Json, ghost tails: bool, ghost tails': bool)
    returns (r: bool)
    requires Represents(a, x, tails) && Represents(b, y, tails') && Integral(x) && Integral(y)
    requires a == b || Apart(a, b)
    ensures r <==> a == b || Equal(cs, x, y)
    decreases Size(x) + Size(y), 0
  {
    hide Children, HaveNames, RecordOf, RowOf, AgreeWith, ConsistentElements, IntegralElements, IntegralMembers;
    if !SameType(a.value, b.value) {
      return false;
    }
    if a == b {
      return true;
    }
    match a.value
    case Number(n) => r := b.value.n == n;
    case String(s) => r := CString(s) == CString(b.value.s);
    case Array(_) => r := CompareArrays(a, b, cs, x.elements, y.elements, tails, tails');
    case Object(_) =>
      MatchBothWays(cs, x.members, y.members);
      r := CompareMembers(a, b, cs, x.members, y.members, tails, tails');
      if r {
        r := CompareMembers(b, a, cs, y.members, x.members, tails', tails);
      }
    case Double(_) => assert false;
    case _ => r := true;
  }

  /** Whether two items have the same type. */
  predicate SameType(x: Json, y: Json) {
    match x
    case Null => y.Null?
    case False => y.False?
    case True => y.True?
    case Number(_) => y.Number?
    case Double(_) => y.Double?
    case String(_) => y.String?
    case Array(_) => y.Array?
    case Object(_) => y.Object?
  }

  method CompareArrays(a: Item, b: Item, cs: bool, ghost es: Elements, ghost fs: Elements,
        ghost tails: bool, ghost tails': bool)
    returns (r: bool)
    requires Represents(a, Array(es), tails) && Represents(b, Array(fs), tails') && Apart(a, b)
    requires IntegralElements(es) && IntegralElements(fs)
    ensures r <==> EqualElements(cs, es, fs)
    decreases ElementsSize(es) + ElementsSize(fs), 1
  {
    hide Represents, EqualElements, Equal;
    var x, y := a.child, b.child;
    ghost var ex, ey, at := es, fs, 0;
    ArrayStarts(a, es, tails);
    ArrayStarts(b, fs, tails');
    while x != null && y != null
      invariant StandsAt(a, at, x) && IsRestElements(es, at, ex) && StandsAt(b, at, y) && IsRestElements(fs, at, ey)
      invariant IntegralElements(ex) && IntegralElements(ey)
      invariant EqualElements(cs, es, fs) <==> EqualElements(cs, ex, ey)
      invariant ElementsSize(ex) <= ElementsSize(es) && ElementsSize(ey) <= ElementsSize(fs)
      decreases |a.children| - at
    {
      ElementStands(a, es, tails, at, x, ex);
      ElementStands(b, fs, tails', at, y, ey);
      EqualElementsStep(cs, ex, ey);
      r := Compare(x, y, cs, ex.item, ey.item, tails, tails');
      if !r {
        return false;
      }
      x, y := x.next, y.next;
      ex, ey, at := ex.next, ey.next, at + 1;
    }
    ArrayEnds(a, es, tails, at, x, ex);
    ArrayEnds(b, fs, tails', at, y, ey);
    EqualElementsStep(cs, ex, ey);
    NoElements(cs);
    r := x == y;
  }

  lemma NoElements(cs: bool)
    ensures EqualElements(cs, NoElement, NoElement)
  {
  }

  /** One of the two loops over the members of an object. */
  method CompareMembers(a: Item, b: Item, cs: bool, ghost ms: Members, ghost other: Members,
        ghost tails: bool, ghost tails': bool)
    returns (r: bool)
    requires Represents(a, Object(ms), tails) && Represents(b, Object(other), tails') && Apart(a, b)
    requires IntegralMembers(ms) && IntegralMembers(other)
    ensures r <==> Matches(cs, ms, other)
    decreases MembersSize(ms) + MembersSize(other), 1
  {
    hide Represents, Equal, Find;
    var current := a.child;
    ghost var rest, at := ms, 0;
    ObjectStarts(a, ms, tails);
    while current != null
      invariant StandsAt(a, at, current) && IsRest(ms, at, rest)
      invariant IntegralMembers(rest) && MembersSize(rest) <= MembersSize(ms)
      invariant Matches(cs, ms, other) <==> Matches(cs, rest, other)
      decreases |a.children| - at
    {
      MemberStands(a, ms, tails, at, current, rest);
      Found(cs, other, rest.key);
      var item := GetObjectItem(b, current.name, cs, other, tails');
      if item == null {
        return false;
      }
      r := Compare(current, item, cs, rest.item, Find(cs, other, rest.key).value, tails, tails');
      if !r {
        return false;
      }
      current, at, rest := current.next, at + 1, rest.next;
    }
    ObjectEnds(a, ms, tails, at, current, rest);
    r := true;
  }

  // ----- distinct names -----

  ghost predicate HasName(cs: bool, ms: Members, name: Text) {
    ms.Member? && (Key(cs, ms.key) == Key(cs, name) || HasName(cs, ms.next, name))
  }

  /** The names within each object are distinct. */
  ghost predicate DistinctNames(cs: bool, j: Json) {
    match j
    case Array(elements) => DistinctElementNames(cs, elements)
    case Object(members) => DistinctMemberNames(cs, members)
    case _ => true
  }

  ghost predicate DistinctElementNames(cs: bool, es: Elements) {
    es.Element? ==> DistinctNames(cs, es.item) && DistinctElementNames(cs, es.next)
  }

  ghost predicate DistinctMemberNames(cs: bool, ms: Members) {
    ms.Member? ==> !HasName(cs, ms.next, ms.key) && DistinctNames(cs, ms.item) && DistinctMemberNames(cs, ms.next)
  }

  lemma {:induction false} DistinctIsConsistent(cs: bool, j: Json)
    requires Integral(j) && DistinctNames(cs, j)
    ensures Consistent(cs, j)
    decreases j, 0
  {
    match j
    case Array(elements) => DistinctElementsConsistent(cs, elements);
    case Object(members) => DistinctMembersAgree(cs, members, RecordOf(cs, members));
    case _ =>
  }

  lemma {:induction false} DistinctElementsConsistent(cs: bool, es: Elements)
    requires IntegralElements(es) && DistinctElementNames(cs, es)
    ensures ConsistentElements(cs, es)
    decreases es, 0
  {
    if es.Element? {
      DistinctIsConsistent(cs, es.item);
      DistinctElementsConsistent(cs, es.next);
    }
  }

  lemma {:induction false} DistinctMembersAgree(cs: bool, ms: Members, record: map<Text, Meaning>)
    requires IntegralMembers(ms) && DistinctMemberNames(cs, ms)
    requires forall k :: k in RecordOf(cs, ms) ==> k in record && record[k] == RecordOf(cs, ms)[k]
    ensures AgreeWith(cs, ms, record)
    decreases ms, 0
  {
    if ms.Member? {
      DistinctIsConsistent(cs, ms.item);
      NamesOfRecord(cs, ms.next, ms.key);
      assert Key(cs, ms.key) in RecordOf(cs, ms);
      DistinctMembersAgree(cs, ms.next, record);
    }
  }

  lemma {:induction false} NamesOfRecord(cs: bool, ms: Members, name: Text)
    requires IntegralMembers(ms)
    ensures Key(cs, name) in RecordOf(cs, ms) <==> HasName(cs, ms, name)
  {
    if ms.Member? {
      NamesOfRecord(cs, ms.next, name);
    }
  }

  // ----- an equivalence, on consistent trees -----

  lemma {:induction false} CompareIsEquivalence(cs: bool, a: Json, b: Json, c: Json)
    requires Integral(a) && Integral(b) && Integral(c)
    ensures Equal(cs, a, a) <==> Consistent(cs, a)
    ensures Equal(cs, a, b) <==> Equal(cs, b, a)
    ensures Equal(cs, a, b) && Equal(cs, b, c) ==> Equal(cs, a, c)
    ensures Equal(cs, a, b) ==> Consistent(cs, a) && Consistent(cs, b)
    ensures DistinctNames(cs, a) && DistinctNames(cs, b) ==> (Equal(cs, a, b) <==> MeaningOf(cs, a) == MeaningOf(cs, b))
  {
    hide Consistent, MeaningOf, DistinctNames, Integral;
    if DistinctNames(cs, a) && DistinctNames(cs, b) {
      DistinctIsConsistent(cs, a);
      DistinctIsConsistent(cs, b);
    }
  }

  // ----- equality up to the order of members -----

  /** Two trees are the same but for the order of members: an object has as many members as the
      other, and each of its members has one of the same name and with such a value there. */
  ghost predicate Alike(cs: bool, a: Json, b: Json)
    decreases a, 0
  {
    match a
    case String(s) => b.String? && CString(s) == CString(b.s)
    case Array(es) => b.Array? && AlikeElements(cs, es, b.elements)
    case Object(ms) =>
      && b.Object? && |ListedMembers(ms)| == |ListedMembers(b.members)|
      && AlikeMembers(cs, ms, ListedMembers(b.members))
    case _ => a == b
  }

  ghost predicate AlikeElements(cs: bool, es: Elements, fs: Elements)
    decreases es, 0
  {
    if es.NoElement? then fs.NoElement?
    else fs.Element? && Alike(cs, es.item, fs.item) && AlikeElements(cs, es.next, fs.next)
  }

  ghost predicate AlikeMembers(cs: bool, ms: Members, others: seq<Named>)
    decreases ms, 0
  {
    ms.Member? ==> HasAlike(cs, ms.key, ms.item, others) && AlikeMembers(cs, ms.next, others)
  }

  ghost predicate HasAlike(cs: bool, key: Text, item: Json, others: seq<Named>)
    decreases item, 1
  {
    exists k :: 0 <= k < |others| && Key(cs, others[k].key) == Key(cs, key) && Alike(cs, item, others[k].item)
  }

  lemma {:induction false} ListedParts(cs: bool, ms: Members, k: nat)
    requires IntegralMembers(ms) && DistinctMemberNames(cs, ms) && k < |ListedMembers(ms)|
    ensures
      var m := ListedMembers(ms)[k];
      && Integral(m.item) && DistinctNames(cs, m.item) && HasName(cs, ms, m.key)
      && Key(cs, m.key) in RecordOf(cs, ms) && RecordOf(cs, ms)[Key(cs, m.key)] == MeaningOf(cs, m.item)
  {
    if k > 0 {
      ListedParts(cs, ms.next, k - 1);
      NamesOfRecord(cs, ms.next, ms.key);
    }
  }

  lemma {:induction false} RecordListed(cs: bool, ms: Members, x: Text) returns (k: nat)
    requires IntegralMembers(ms) && x in RecordOf(cs, ms)
    ensures k < |ListedMembers(ms)| && Key(cs, ListedMembers(ms)[k].key) == x
  {
    if Key(cs, ms.key) == x {
      k := 0;
    } else {
      var j := RecordListed(cs, ms.next, x);
      k := j + 1;
    }
  }

  lemma {:induction false} RecordSize(cs: bool, ms: Members)
    requires IntegralMembers(ms) && DistinctMemberNames(cs, ms)
    ensures |RecordOf(cs, ms).Keys| == |ListedMembers(ms)|
  {
    if ms.Member? {
      RecordSize(cs, ms.next);
      NamesOfRecord(cs, ms.next, ms.key);
      assert RecordOf(cs, ms).Keys == RecordOf(cs, ms.next).Keys + {Key(cs, ms.key)};
    }
  }

  lemma SameSize(a: set<Text>, b: set<Text>)
    requires a <= b && |a| == |b|
    ensures a == b
  {
    assert |b - a| == |b| - |a|;
  }

  /** For trees with distinct names, comparing is equality up to the order of members. */
  lemma {:induction false} EqualIsAlike(cs: bool, a: Json, b: Json)
    requires Integral(a) && Integral(b) && DistinctNames(cs, a) && DistinctNames(cs, b)
    ensures Equal(cs, a, b) <==> Alike(cs, a, b)
  {
    DistinctIsConsistent(cs, a);
    DistinctIsConsistent(cs, b);
    MeaningIsAlike(cs, a, b);
  }

  lemma {:induction false} MeaningIsAlike(cs: bool, a: Json, b: Json)
    requires Integral(a) && Integral(b) && DistinctNames(cs, a) && DistinctNames(cs, b)
    ensures MeaningOf(cs, a) == MeaningOf(cs, b) <==> Alike(cs, a, b)
    decreases a, 1
  {
    match a
    case Array(es) =>
      if b.Array? {
        RowIsAlike(cs, es, b.elements);
      }
    case Object(ms) =>
      if b.Object? {
        RecordIsAlike(cs, ms, b.members);
      }
    case _ =>
  }

  lemma {:induction false} RowIsAlike(cs: bool, es: Elements, fs: Elements)
    requires IntegralElements(es) && IntegralElements(fs)
    requires DistinctElementNames(cs, es) && DistinctElementNames(cs, fs)
    ensures RowOf(cs, es) == RowOf(cs, fs) <==> AlikeElements(cs, es, fs)
    decreases es, 1
  {
    if es.Element? && fs.Element? {
      MeaningIsAlike(cs, es.item, fs.item);
      RowIsAlike(cs, es.next, fs.next);
      assert RowOf(cs, es)[0] == MeaningOf(cs, es.item) && RowOf(cs, es)[1..] == RowOf(cs, es.next);
      assert RowOf(cs, fs)[0] == MeaningOf(cs, fs.item) && RowOf(cs, fs)[1..] == RowOf(cs, fs.next);
    }
  }

  /** Every member means what the record of the other object has under its name. */
  ghost predicate MeansIn(cs: bool, ms: Members, record: map<Text, Meaning>)
    requires IntegralMembers(ms)
    decreases ms
  {
    ms.Member? ==>
      && Key(cs, ms.key) in record && record[Key(cs, ms.key)] == MeaningOf(cs, ms.item)
      && MeansIn(cs, ms.next, record)
  }

  lemma {:induction false} MembersAreAlike(cs: bool, ms: Members, other: Members)
    requires IntegralMembers(ms) && IntegralMembers(other)
    requires DistinctMemberNames(cs, ms) && DistinctMemberNames(cs, other)
    ensures MeansIn(cs, ms, RecordOf(cs, other)) <==> AlikeMembers(cs, ms, ListedMembers(other))
    decreases ms, 1
  {
    if ms.Member? {
      MembersAreAlike(cs, ms.next, other);
      MemberIsAlike(cs, ms.key, ms.item, other);
    }
  }

  lemma {:induction false} MemberIsAlike(cs: bool, key: Text, item: Json, other: Members)
    requires Integral(item) && DistinctNames(cs, item) && IntegralMembers(other) && DistinctMemberNames(cs, other)
    ensures
      var record := RecordOf(cs, other);
      Key(cs, key) in record && record[Key(cs, key)] == MeaningOf(cs, item)
      <==> HasAlike(cs, key, item, ListedMembers(other))
    decreases item, 2
  {
    hide Alike, MeaningOf, RecordOf, DistinctNames, DistinctMemberNames, Key, Integral, IntegralMembers;
    var others := ListedMembers(other);
    if Key(cs, key) in RecordOf(cs, other) {
      var k := RecordListed(cs, other, Key(cs, key));
      ListedParts(cs, other, k);
      MeaningIsAlike(cs, item, others[k].item);
    }
    if HasAlike(cs, key, item, others) {
      var k :| 0 <= k < |others| && Key(cs, others[k].key) == Key(cs, key) && Alike(cs, item, others[k].item);
      ListedParts(cs, other, k);
      MeaningIsAlike(cs, item, others[k].item);
    }
  }

  lemma {:induction false} MeansInItself(cs: bool, ms: Members, record: map<Text, Meaning>)
    requires IntegralMembers(ms) && DistinctMemberNames(cs, ms)
    requires forall x :: x in RecordOf(cs, ms) ==> x in record && record[x] == RecordOf(cs, ms)[x]
    ensures MeansIn(cs, ms, record)
  {
    if ms.Member? {
      NamesOfRecord(cs, ms.next, ms.key);
      assert Key(cs, ms.key) in RecordOf(cs, ms);
      MeansInItself(cs, ms.next, record);
    }
  }

  lemma {:induction false} MeaningIsPart(cs: bool, ms: Members, record: map<Text, Meaning>)
    requires IntegralMembers(ms) && MeansIn(cs, ms, record)
    ensures forall x :: x in RecordOf(cs, ms) ==> x in record && record[x] == RecordOf(cs, ms)[x]
  {
    if ms.Member? {
      MeaningIsPart(cs, ms.next, record);
    }
  }

  lemma {:induction false} RecordIsAlike(cs: bool, ms: Members, other: Members)
    requires IntegralMembers(ms) && IntegralMembers(other)
    requires DistinctMemberNames(cs, ms) && DistinctMemberNames(cs, other)
    ensures RecordOf(cs, ms) == RecordOf(cs, other)
            <==> |ListedMembers(ms)| == |ListedMembers(other)| && AlikeMembers(cs, ms, ListedMembers(other))
    decreases ms, 2
  {
    hide AlikeMembers, MeansIn, RecordOf, DistinctMemberNames, IntegralMembers;
    var these, those := RecordOf(cs, ms), RecordOf(cs, other);
    RecordSize(cs, ms);
    RecordSize(cs, other);
    MembersAreAlike(cs, ms, other);
    if these == those {
      MeansInItself(cs, ms, those);
    }
    if |ListedMembers(ms)| == |ListedMembers(other)| && MeansIn(cs, ms, those) {
      MeaningIsPart(cs, ms, those);
      SameSize(these.Keys, those.Keys);
      assert these == those;
    }
  }

  /** The same of three items and the answers cJSON_Compare gives. */
  method CompareThree(a: Item, b: Item, c: Item, cs: bool,
        ghost x: Json, ghost y: Json, ghost z: Json, ghost tails: bool)
    returns (ab: bool, ba: bool, bc: bool, ac: bool)
    requires Represents(a, x, tails) && Represents(b, y, tails) && Represents(c, z, tails)
    requires Integral(x) && Integral(y) && Integral(z)
    requires Apart(a, b) && Apart(b, c) && Apart(a, c)
    ensures ab <==> Equal(cs, x, y)
    ensures ba <==> Equal(cs, y, x)
    ensures bc <==> Equal(cs, y, z)
    ensures ac <==> Equal(cs, x, z)
    ensures ab == ba
    ensures ab && bc ==> ac
    ensures ab ==> Consistent(cs, x) && Consistent(cs, y)
  {
    hide Represents, Equal, Consistent, MeaningOf, Integral;
    CompareIsEquivalence(cs, x, y, z);
    ab := Compare(a, b, cs, x, y, tails, tails);
    ba := Compare(b, a, cs, y, x, tails, tails);
    bc := Compare(b, c, cs, y, z, tails, tails);
    ac := Compare(a, c, cs, x, z, tails, tails);
  }

  // ----- copies -----

  /** What the children of an item stand for. */
  ghost function ChildItems(j: Json): (items: seq<Json>)
    ensures forall k :: 0 <= k < |items| ==> Nesting(items[k]) <= ChildBound(j) < Nesting(j)
  {
    match j
    case Array(elements) => Listed(elements)
    case Object(members) => Items(ListedMembers(members))
    case _ => []
  }

  ghost function ChildBound(j: Json): nat {
    if Nesting(j) == 0 then 0 else Nesting(j) - 1
  }

  lemma HasChildren(item: Item, j: Json, tails: bool)
    requires Represents(item, j, tails)
    ensures Children(item, ChildItems(j), tails, ChildBound(j)) && Owned(item)
    ensures j.Object? ==> HaveNames(item, ListedMembers(j.members))
  {
    hide Distinct, Item.Forward, Item.Backward;
    if !j.Array? && !j.Object? {
      NoItems();
    }
  }

  lemma NoItems()
    ensures Distinct([]) && Item.Forward([]) && Item.Backward([])
  {
  }

  /** cJSON_Duplicate, as long as memory lasts: new items all the way down, with the values and
      names of the old ones. No list of the copy has the link from its first item to its last. */
  method Duplicate(item: Item, recurse: bool, ghost j: Json, ghost tails: bool) returns (copy: Item)
    requires Represents(item, j, tails)
    ensures fresh(copy) && fresh(copy.below) && copy !in copy.below
    ensures copy.name == item.name && copy.value == item.value && copy.next == null && copy.prev == null
    ensures if recurse then Represents(copy, j, false) else copy.child == null
    decreases Nesting(j), 1
  {
    hide Children;
    copy := new Item();
    copy.value := item.value;
    copy.name := item.name;
    if !recurse {
      return;
    }
    HasChildren(item, j, tails);
    DuplicateChildren(item, copy, j, tails);
  }

  /** Its loop over the children. */
  method DuplicateChildren(item: Item, copy: Item, ghost j: Json, ghost tails: bool)
    requires Represents(item, j, tails) && item != copy && copy !in item.below
    requires copy.child == null && copy.children == [] && copy.below == {} && copy.value == item.value
    modifies copy`child, copy`children, copy`below
    ensures Represents(copy, j, false) && fresh(copy.below)
    decreases Nesting(j), 0
  {
    hide Represents, Forest, Branches.Linked, Branches.Named, Children, ChildItems, ChildBound, Owned, HaveNames;
    HasChildren(item, j, tails);
    ghost var items := ChildItems(j);
    WalkStarts(item, items, tails, ChildBound(j));
    var child := item.child;
    var next: Item? := null;
    ghost var b, names, at := Branches([], [], {}), [], 0;
    EmptyBranches(false);
    while child != null
      invariant StandsAt(item, at, child) && |names| == at
      invariant fresh(b.all) && b.Linked(copy.child, next, false) && b.Named(names)
      invariant b.items == items[..at]
      invariant forall k :: 0 <= k < at ==> names[k] == item.children[k].name
      decreases |item.children| - at
    {
      WalkStands(item, items, tails, ChildBound(j), at, child);
      var newChild := Duplicate(child, true, items[at], tails);
      LinkCopy(copy, next, newChild, items[at], b, names);
      next := newChild;
      b, names := b.With(newChild, items[at]), names + [newChild.name];
      assert items[..at] + [items[at]] == items[..at + 1];
      child, at := child.next, at + 1;
    }
    copy.children, copy.below := b.nodes, b.all;
    CopyHangs(item, copy, j, tails, next, b, names);
  }

  /** A copied child behind the others. */
  method LinkCopy(copy: Item, next: Item?, newChild: Item, ghost j: Json, ghost b: Branches, ghost names: seq<Text>)
    requires b.Linked(copy.child, next, false) && b.Named(names) && copy !in b.all && copy != newChild
    requires copy !in newChild.below
    requires newChild !in b.all && newChild.next == null && newChild.prev == null
    requires Represents(newChild, j, false) && newChild !in newChild.below && newChild.below !! b.all
    modifies copy`child, b.all`next, newChild`prev
    ensures b.With(newChild, j).Linked(copy.child, newChild, false)
    ensures b.With(newChild, j).Named(names + [newChild.name])
  {
    hide Represents, Forest, Chained;
    Ends(b, copy.child, next, false);
    copy.child := Grow(copy.child, next, newChild, b, false);
    Grown(b, copy.child, newChild, j, false);
  }

  lemma CopyHangs(item: Item, copy: Item, j: Json, tails: bool, last: Item?, b: Branches, names: seq<Text>)
    requires Represents(item, j, tails) && copy.value == item.value
    requires Owned(item) && |names| == |item.children|
    requires forall k :: 0 <= k < |names| ==> names[k] == item.children[k].name
    requires b.Linked(copy.child, last, false) && b.Named(names) && b.items == ChildItems(j)
    requires copy !in b.all && copy.children == b.nodes && copy.below == b.all
    ensures Represents(copy, j, false)
  {
    hide Forest, Distinct, Children;
    HasChildren(item, j, tails);
    match j
    case Array(elements) =>
      HangsArray(copy, b, false);
      ChainListed(elements);
    case Object(members) =>
      HangsObject(copy, b, names, false);
      assert Zip(names, b.items) == ListedMembers(members);
      MemberChainListed(members);
    case _ => NoForest(b.all);
  }

  /** A copy compares equal to its source exactly when the source is consistent. */
  method CompareWithCopy(item: Item, cs: bool, ghost j: Json, ghost tails: bool) returns (r: bool)
    requires Represents(item, j, tails) && Integral(j)
    ensures r <==> Consistent(cs, j)
  {
    hide Represents;
    NotBelowItself(item, j, tails);
    var copy := Duplicate(item, true, j, tails);
    r := Compare(item, copy, cs, j, j, tails, false);
  }

  const TWICE: Json := Object(Member([0x6B], Number(1), Member([0x6B], Number(2), NoMember)))

  lemma TwiceIsInconsistent(cs: bool)
    ensures Integral(TWICE) && !Consistent(cs, TWICE)
  {
    assert RecordOf(cs, TWICE.members)[Key(cs, [0x6B])] == Amount(1);
  }

  /** An object with two values under one name is not equal to its own copy. */
  method NotEqualToCopy(item: Item, cs: bool, ghost tails: bool) returns (r: bool)
    requires Represents(item, TWICE, tails)
    ensures !r
  {
    hide Represents;
    TwiceIsInconsistent(cs);
    r := CompareWithCopy(item, cs, TWICE, tails);
  }

  const CASED: Json := Object(Member([0x6B], Number(1), Member([0x4B], Number(2), NoMember)))

  /** Names that differ in case only are one name to one comparison and two to the other. */
  lemma CaseDecides()
    ensures Integral(CASED) && Consistent(true, CASED) && !Consistent(false, CASED)
  {
    assert CString([0x6B]) == [0x6B] && CString([0x4B]) == [0x4B];
    assert Fold([0x6B]) == Fold([0x4B]);
    assert RecordOf(false, CASED.members)[Fold([0x6B])] == Amount(1);
    assert Key(true, [0x6B]) != Key(true, [0x4B]);
  }
}
