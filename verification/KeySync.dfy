/** Bringing the keys of a target file in line with its source file. */
module KeySync {
  import opened Texts
  import opened PropertiesFile

  // ------------------------------------------------------------- keys of a file

  function EntryKeys(items: seq<Item>): seq<Text> {
    if items == [] then []
    else (if items[0].Entry? then [items[0].key] else []) + EntryKeys(items[1..])
  }

  predicate Distinct<T(==)>(s: seq<T>) {
    forall i, j :: 0 <= i < j < |s| ==> s[i] != s[j]
  }

  function KeySet(items: seq<Item>): set<Text> {
    set k | k in EntryKeys(items)
  }

  predicate KeyedIn(item: Item, keys: set<Text>) {
    item.Entry? && item.key in keys
  }

  /** The items without the entries of the given keys. */
  function Without(items: seq<Item>, keys: set<Text>): seq<Item> {
    if items == [] then []
    else (if KeyedIn(items[0], keys) then [] else [items[0]]) + Without(items[1..], keys)
  }

  function OnlyIn(keys: seq<Text>, wanted: set<Text>): seq<Text> {
    if keys == [] then []
    else (if keys[0] in wanted then [keys[0]] else []) + OnlyIn(keys[1..], wanted)
  }

  /** Number of consecutive non-entry lines from `i` on. */
  function CommentsAfter(items: seq<Item>, i: nat): nat
    requires i <= |items|
    decreases |items| - i
  {
    if i < |items| && items[i].Comment? then 1 + CommentsAfter(items, i + 1) else 0
  }

  /** Number of consecutive non-entry lines right before `i`. */
  function CommentsBefore(items: seq<Item>, i: nat): nat
    requires i <= |items|
  {
    if i > 0 && items[i - 1].Comment? then 1 + CommentsBefore(items, i - 1) else 0
  }

  function CommentCount(items: seq<Item>): nat {
    if items == [] then 0 else (if items[0].Comment? then 1 else 0) + CommentCount(items[1..])
  }

  function Min(a: nat, b: nat): nat {
    if a < b then a else b
  }

  lemma {:induction false} EntryKeysStep(items: seq<Item>)
    ensures items == [] ==> EntryKeys(items) == []
    ensures items != [] ==>
              EntryKeys(items) == (if items[0].Entry? then [items[0].key] else []) + EntryKeys(items[1..])
  {
  }

  lemma {:induction false} EntryKeysAppend(a: seq<Item>, b: seq<Item>)
    ensures EntryKeys(a + b) == EntryKeys(a) + EntryKeys(b)
  {
    hide EntryKeys;
    EntryKeysStep(a);
    if a == [] {
      assert a + b == b;
    } else {
      assert (a + b)[1..] == a[1..] + b && (a + b)[0] == a[0];
      EntryKeysStep(a + b);
      EntryKeysAppend(a[1..], b);
      var first := if a[0].Entry? then [a[0].key] else [];
      assert first + (EntryKeys(a[1..]) + EntryKeys(b)) == first + EntryKeys(a[1..]) + EntryKeys(b);
    }
  }

  lemma {:induction false} WithoutAppend(a: seq<Item>, b: seq<Item>, keys: set<Text>)
    ensures Without(a + b, keys) == Without(a, keys) + Without(b, keys)
  {
    if a == [] {
      assert a + b == b;
    } else {
      assert (a + b)[1..] == a[1..] + b;
      WithoutAppend(a[1..], b, keys);
    }
  }

  lemma {:induction false} EntryKeysHas(items: seq<Item>, key: Text)
    ensures key in EntryKeys(items) <==> exists i :: 0 <= i < |items| && items[i].Entry? && items[i].key == key
  {
    if items != [] {
      EntryKeysHas(items[1..], key);
      if i :| 0 <= i < |items[1..]| && items[1..][i].Entry? && items[1..][i].key == key {
        assert items[i + 1] == items[1..][i];
      }
      if i :| 0 <= i < |items| && items[i].Entry? && items[i].key == key {
        assert i > 0 ==> items[1..][i - 1] == items[i];
      }
    }
  }

  lemma {:induction false} CommentsHaveNoKeys(items: seq<Item>, from: nat, to: nat)
    requires from <= to <= |items|
    requires forall i :: from <= i < to ==> items[i].Comment?
    ensures EntryKeys(items[from..to]) == []
    decreases |items| - from
  {
    if from < to {
      CommentsHaveNoKeys(items, from + 1, to);
      assert items[from..to][1..] == items[from + 1..to];
    }
  }

  // ------------------------------------------------------------ insertion index

  /** The last line that holds the key's entry. */
  function LineOf(items: seq<Item>, key: Text): (i: nat)
    requires key in EntryKeys(items)
    ensures i < |items| && items[i].Entry? && items[i].key == key
  {
    if key in EntryKeys(items[1..]) then 1 + LineOf(items[1..], key) else 0
  }

  /** The nearest earlier key of the source that the file has. */
  function PreviousKey(order: seq<Text>, at: nat, present: seq<Text>): Option<Text>
    requires at <= |order|
  {
    if at == 0 then None
    else if order[at - 1] in present then Some(order[at - 1])
    else PreviousKey(order, at - 1, present)
  }

  /** The nearest later key of the source that the file has. */
  function NextKey(order: seq<Text>, at: nat, present: seq<Text>): Option<Text>
    requires at <= |order|
    decreases |order| - at
  {
    if at == |order| then None
    else if order[at] in present then Some(order[at])
    else NextKey(order, at + 1, present)
  }

  /** Where a missing key goes: behind its nearest predecessor and at most as many non-entry
      lines as separate the two in the source; else, likewise, before its nearest successor. */
  function InsertionIndex(source: seq<Item>, order: seq<Text>, at: nat, items: seq<Item>): (p: nat)
    requires order == EntryKeys(source) && at < |order|
    ensures p <= |items|
  {
    var present := EntryKeys(items);
    var previous, next := PreviousKey(order, at, present), NextKey(order, at + 1, present);
    AnchorsArePresent(order, at, present);
    if previous.Some? then
      var i := LineOf(items, previous.value) + 1;
      var allowed := CommentsBetween(source, previous.value, order[at]);
      CommentsFit(items, i);
      i + Min(allowed, CommentsAfter(items, i))
    else if next.Some? then
      var i := LineOf(items, next.value);
      var allowed := CommentsBetween(source, order[at], next.value);
      CommentsFit(items, i);
      i - Min(allowed, CommentsBefore(items, i))
    else |items|
  }

  lemma {:induction false} AnchorsArePresent(order: seq<Text>, at: nat, present: seq<Text>)
    requires at < |order|
    ensures var k := PreviousKey(order, at, present); k.Some? ==> k.value in present && k.value in order
    ensures var k := NextKey(order, at + 1, present); k.Some? ==> k.value in present && k.value in order
  {
    PreviousIsPresent(order, at, present);
    NextIsPresent(order, at + 1, present);
  }

  lemma {:induction false} PreviousIsPresent(order: seq<Text>, at: nat, present: seq<Text>)
    requires at <= |order|
    ensures var k := PreviousKey(order, at, present); k.Some? ==> k.value in present && k.value in order
  {
    if at > 0 && order[at - 1] !in present {
      PreviousIsPresent(order, at - 1, present);
    }
  }

  lemma {:induction false} NextIsPresent(order: seq<Text>, at: nat, present: seq<Text>)
    requires at <= |order|
    ensures var k := NextKey(order, at, present); k.Some? ==> k.value in present && k.value in order
    decreases |order| - at
  {
    if at < |order| && order[at] !in present {
      NextIsPresent(order, at + 1, present);
    }
  }

  lemma {:induction false} CommentsFit(items: seq<Item>, i: nat)
    requires i <= |items|
    ensures i + CommentsAfter(items, i) <= |items|
    ensures CommentsBefore(items, i) <= i
    ensures forall j :: i <= j < i + CommentsAfter(items, i) ==> items[j].Comment?
    ensures forall j :: i - CommentsBefore(items, i) <= j < i ==> items[j].Comment?
  {
    CommentsFitAfter(items, i);
    CommentsFitBefore(items, i);
  }

  lemma {:induction false} CommentsFitAfter(items: seq<Item>, i: nat)
    requires i <= |items|
    ensures i + CommentsAfter(items, i) <= |items|
    ensures forall j :: i <= j < i + CommentsAfter(items, i) ==> items[j].Comment?
    decreases |items| - i
  {
    if i < |items| && items[i].Comment? {
      CommentsFitAfter(items, i + 1);
    }
  }

  lemma {:induction false} CommentsFitBefore(items: seq<Item>, i: nat)
    requires i <= |items|
    ensures CommentsBefore(items, i) <= i
    ensures forall j :: i - CommentsBefore(items, i) <= j < i ==> items[j].Comment?
  {
    if i > 0 && items[i - 1].Comment? {
      CommentsFitBefore(items, i - 1);
    }
  }

  /** Non-entry lines of the source between the entries of two keys. */
  function CommentsBetween(source: seq<Item>, first: Text, second: Text): nat
    requires first in EntryKeys(source) && second in EntryKeys(source)
  {
    var a, b := LineOf(source, first) + 1, LineOf(source, second);
    if a <= b then CommentCount(source[a..b]) else 0
  }

  // ------------------------------------------------------------ synchronisation

  function LastIndex(order: seq<Text>, key: Text): (i: nat)
    requires key in order
    ensures i < |order| && order[i] == key
  {
    if key in order[1..] then 1 + LastIndex(order[1..], key) else 0
  }

  function SourceEntry(source: seq<Item>, key: Text): (item: Item)
    requires key in EntryKeys(source)
    ensures item.Entry? && item.key == key
  {
    source[LineOf(source, key)]
  }

  /** The entry added for a missing key keeps the source's spelling of key and separator. */
  function AddedEntry(source: seq<Item>, key: Text): (item: Item)
    requires key in EntryKeys(source)
    ensures item.Entry? && item.key == key
  {
    var s := SourceEntry(source, key);
    Entry(key, s.rawKey, s.separator, s.value, None, [])
  }

  function Insert(items: seq<Item>, p: nat, item: Item): seq<Item>
    requires p <= |items|
  {
    items[..p] + [item] + items[p..]
  }

  /** The target lines after the first `n` source keys have been looked at. */
  function InsertMissing(source: seq<Item>, items: seq<Item>, missing: set<Text>, n: nat): seq<Item>
    requires n <= |EntryKeys(source)|
  {
    if n == 0 then items
    else
      var before := InsertMissing(source, items, missing, n - 1);
      var order := EntryKeys(source);
      var key := order[n - 1];
      if key in missing
      then Insert(before, InsertionIndex(source, order, LastIndex(order, key), before), AddedEntry(source, key))
      else before
  }

  function Missing(target: seq<Item>, source: seq<Item>): set<Text> {
    KeySet(source) - KeySet(target)
  }

  function Extra(target: seq<Item>, source: seq<Item>): set<Text> {
    KeySet(target) - KeySet(source)
  }

  function Synchronized(target: seq<Item>, source: seq<Item>): seq<Item> {
    var missing := Missing(target, source);
    InsertMissing(source, Without(target, Extra(target, source)), missing, |EntryKeys(source)|)
  }

  // ---- one insertion

  lemma {:induction false} LastIndexOfDistinct(order: seq<Text>, i: nat)
    requires Distinct(order) && i < |order|
    ensures LastIndex(order, order[i]) == i
  {
    var l := LastIndex(order, order[i]);
    assert order[l] == order[i];
  }

  lemma {:induction false} InsertKeys(items: seq<Item>, p: nat, item: Item)
    requires p <= |items| && item.Entry?
    ensures EntryKeys(Insert(items, p, item)) == EntryKeys(items[..p]) + [item.key] + EntryKeys(items[p..])
    ensures EntryKeys(items) == EntryKeys(items[..p]) + EntryKeys(items[p..])
  {
    hide EntryKeys;
    assert items == items[..p] + items[p..];
    EntryKeysAppend(items[..p], items[p..]);
    EntryKeysAppend(items[..p] + [item], items[p..]);
    EntryKeysAppend(items[..p], [item]);
    OneEntryKey(item);
  }

  lemma {:induction false} OneEntryKey(item: Item)
    requires item.Entry?
    ensures EntryKeys([item]) == [item.key]
  {
    assert [item][1..] == [];
  }

  lemma {:induction false} KeysAround(items: seq<Item>, i: nat)
    requires i < |items| && items[i].Entry?
    ensures EntryKeys(items[..i + 1]) == EntryKeys(items[..i]) + [items[i].key]
    ensures EntryKeys(items[i..]) == [items[i].key] + EntryKeys(items[i + 1..])
  {
    assert items[..i + 1] == items[..i] + [items[i]];
    EntryKeysAppend(items[..i], [items[i]]);
    OneEntryKey(items[i]);
    assert items[i..][1..] == items[i + 1..];
  }

  /** Among the entries, the new key lands right after its nearest predecessor, or right
      before its nearest successor, whatever comments stand around them. */
  lemma {:induction false} InsertionPlace(source: seq<Item>, order: seq<Text>, at: nat, items: seq<Item>, item: Item)
    returns (a: seq<Text>, b: seq<Text>)
    requires order == EntryKeys(source) && at < |order| && item.Entry?
    ensures EntryKeys(Insert(items, InsertionIndex(source, order, at, items), item)) == a + [item.key] + b
    ensures EntryKeys(items) == a + b
    ensures var previous := PreviousKey(order, at, EntryKeys(items));
            previous.Some? ==> a != [] && a[|a| - 1] == previous.value
    ensures var previous, next := PreviousKey(order, at, EntryKeys(items)), NextKey(order, at + 1, EntryKeys(items));
            previous.None? && next.Some? ==> b != [] && b[0] == next.value
  {
    hide EntryKeys, CommentsBetween, PreviousKey, NextKey, CommentsAfter, CommentsBefore;
    var present := EntryKeys(items);
    var previous, next := PreviousKey(order, at, present), NextKey(order, at + 1, present);
    AnchorsArePresent(order, at, present);
    var p := InsertionIndex(source, order, at, items);
    InsertKeys(items, p, item);
    a, b := EntryKeys(items[..p]), EntryKeys(items[p..]);
    if previous.Some? {
      var i := LineOf(items, previous.value) + 1;
      CommentsFit(items, i);
      CommentsHaveNoKeys(items, i, p);
      KeysAround(items, i - 1);
      assert items[..p] == items[..i] + items[i..p];
      EntryKeysAppend(items[..i], items[i..p]);
    } else if next.Some? {
      var i := LineOf(items, next.value);
      CommentsFit(items, i);
      CommentsHaveNoKeys(items, p, i);
      KeysAround(items, i);
      assert items[p..] == items[p..i] + items[i..];
      EntryKeysAppend(items[p..i], items[i..]);
    }
  }

  // ---- what every insertion keeps

  /** The situation the insertions start from. */
  predicate Consistent(source: seq<Item>, items: seq<Item>, missing: set<Text>) {
    && Distinct(EntryKeys(source))
    && KeySet(source) == KeySet(items) + missing
    && KeySet(items) !! missing
  }

  lemma {:induction false} KeysGrow(before: seq<Text>, a: seq<Text>, key: Text, b: seq<Text>)
    requires before == a + b
    ensures (set k | k in a + [key] + b) == (set k | k in before) + {key}
    ensures multiset(a + [key] + b) == multiset(before) + multiset([key])
  {
    assert forall k :: k in a + [key] + b <==> k in a || k == key || k in b;
  }

  lemma {:induction false} OnlyInSnoc(keys: seq<Text>, key: Text, wanted: set<Text>)
    ensures OnlyIn(keys + [key], wanted) == OnlyIn(keys, wanted) + if key in wanted then [key] else []
  {
    if keys == [] {
      assert [] + [key] == [key] && [key][1..] == [];
    } else {
      assert (keys + [key])[1..] == keys[1..] + [key];
      OnlyInSnoc(keys[1..], key, wanted);
    }
  }

  /** Every occurrence of a missing key in the source adds one entry, and nothing else does. */
  lemma {:induction false} KeysSoFar(source: seq<Item>, items: seq<Item>, missing: set<Text>, n: nat)
    requires n <= |EntryKeys(source)|
    ensures KeySet(InsertMissing(source, items, missing, n))
            == KeySet(items) + (set k | k in EntryKeys(source)[..n] && k in missing)
    ensures multiset(EntryKeys(InsertMissing(source, items, missing, n)))
            == multiset(EntryKeys(items)) + multiset(OnlyIn(EntryKeys(source)[..n], missing))
  {
    hide EntryKeys, InsertionIndex, OnlyIn;
    var order := EntryKeys(source);
    NoKeys(missing);
    if n > 0 {
      KeysSoFar(source, items, missing, n - 1);
      var before, key := InsertMissing(source, items, missing, n - 1), order[n - 1];
      assert order[..n] == order[..n - 1] + [key];
      OnlyInSnoc(order[..n - 1], key, missing);
      if key in missing {
        var a, b := InsertionPlace(source, order, LastIndex(order, key), before, AddedEntry(source, key));
        KeysGrow(EntryKeys(before), a, key, b);
      }
    }
  }

  lemma {:induction false} DistinctByCount(s: seq<Text>)
    ensures Distinct(s) <==> forall k :: multiset(s)[k] <= 1
  {
    if s != [] {
      var rest := s[1..];
      assert s == [s[0]] + rest;
      DistinctByCount(rest);
      assert forall i :: 0 <= i < |rest| ==> rest[i] == s[i + 1];
      assert s[0] in rest <==> multiset(rest)[s[0]] > 0;
      assert multiset(s)[s[0]] == 1 + multiset(rest)[s[0]];
      assert forall k :: k != s[0] ==> multiset(s)[k] == multiset(rest)[k];
      if Distinct(s) {
        assert s[0] !in rest;
      }
      if Distinct(rest) && s[0] !in rest {
        forall i, j | 0 <= i < j < |s| ensures s[i] != s[j] {
          assert s[j] == rest[j - 1] && rest[j - 1] in rest;
          if i > 0 { assert s[i] == rest[i - 1]; }
        }
      }
    }
  }

  /** Two lists without a common key hold no key twice exactly when neither does. */
  lemma {:induction false} DistinctTogether(all: seq<Text>, a: seq<Text>, b: seq<Text>)
    requires multiset(all) == multiset(a) + multiset(b) && forall k :: k in a ==> k !in b
    ensures Distinct(all) <==> Distinct(a) && Distinct(b)
  {
    DistinctByCount(all);
    DistinctByCount(a);
    DistinctByCount(b);
    hide Distinct;
    forall k ensures multiset(all)[k] <= 1 <==> multiset(a)[k] <= 1 && multiset(b)[k] <= 1 {
      assert multiset(a)[k] > 0 ==> k in a;
      assert multiset(b)[k] > 0 ==> k in b;
    }
    if Distinct(all) { forall k ensures multiset(a)[k] <= 1 && multiset(b)[k] <= 1 { assert multiset(all)[k] <= 1; } }
  }

  /** When a key's turn comes, the key before it in the source is already there. */
  lemma {:induction false} PredecessorIsPresent(source: seq<Item>, items: seq<Item>, missing: set<Text>, n: nat)
    requires Consistent(source, items, missing) && 0 < n < |EntryKeys(source)|
    ensures PreviousKey(EntryKeys(source), n, EntryKeys(InsertMissing(source, items, missing, n)))
            == Some(EntryKeys(source)[n - 1])
  {
    hide EntryKeys, InsertMissing;
    var order, before := EntryKeys(source), InsertMissing(source, items, missing, n);
    KeysSoFar(source, items, missing, n);
    assert order[n - 1] in KeySet(source);
    assert order[..n][n - 1] == order[n - 1];
    assert order[n - 1] in KeySet(before);
  }

  lemma {:induction false} WithoutNothing(items: seq<Item>, keys: set<Text>)
    requires KeySet(items) !! keys
    ensures Without(items, keys) == items
  {
    if items != [] {
      assert items[0].Entry? ==> items[0].key in KeySet(items);
      assert KeySet(items[1..]) <= KeySet(items);
      WithoutNothing(items[1..], keys);
    }
  }

  /** Taking the added entries out again gives back the lines there were, and every added
      entry carries the source's spelling and value. */
  lemma {:induction false} InsertionsOnlyAdd(source: seq<Item>, items: seq<Item>, missing: set<Text>, n: nat)
    requires n <= |EntryKeys(source)| && KeySet(items) !! missing
    ensures Without(InsertMissing(source, items, missing, n), missing) == items
    ensures forall item :: item in InsertMissing(source, items, missing, n) && KeyedIn(item, missing) ==>
              item.key in EntryKeys(source) && item == AddedEntry(source, item.key)
  {
    hide EntryKeys, InsertionIndex, Without, Insert;
    WithoutNothing(items, missing);
    var order := EntryKeys(source);
    if n == 0 {
      NoneKeyed(items, missing);
    } else {
      InsertionsOnlyAdd(source, items, missing, n - 1);
      var before, key := InsertMissing(source, items, missing, n - 1), order[n - 1];
      if key in missing {
        InsertedTakenOut(before, InsertionIndex(source, order, LastIndex(order, key), before), AddedEntry(source, key),
            missing);
      }
    }
  }

  lemma {:induction false} InsertedTakenOut(items: seq<Item>, p: nat, item: Item, keys: set<Text>)
    requires p <= |items| && KeyedIn(item, keys)
    ensures Without(Insert(items, p, item), keys) == Without(items, keys)
    ensures forall x :: x in Insert(items, p, item) ==> x == item || x in items
  {
    hide Without;
    WithoutAppend(items[..p] + [item], items[p..], keys);
    WithoutAppend(items[..p], [item], keys);
    WithoutAppend(items[..p], items[p..], keys);
    assert items == items[..p] + items[p..];
    WithoutOne(item, keys);
  }

  lemma {:induction false} NoneKeyed(items: seq<Item>, keys: set<Text>)
    requires KeySet(items) !! keys
    ensures forall item :: item in items ==> !KeyedIn(item, keys)
  {
    if items != [] {
      assert items[0].Entry? ==> items[0].key in KeySet(items);
      assert KeySet(items[1..]) <= KeySet(items);
      NoneKeyed(items[1..], keys);
    }
  }

  lemma {:induction false} WithoutOne(item: Item, keys: set<Text>)
    requires KeyedIn(item, keys)
    ensures Without([item], keys) == []
  {
    assert [item][1..] == [];
  }

  // ---- order

  predicate Follows(keys: seq<Text>, first: Text, second: Text) {
    exists i :: 0 <= i < |keys| - 1 && keys[i] == first && keys[i + 1] == second
  }

  lemma {:induction false} FollowsKept(before: seq<Text>, a: seq<Text>, key: Text, b: seq<Text>, first: Text,
        second: Text)
    requires before == a + b && Follows(before, first, second)
    requires (a != [] ==> a[|a| - 1] != first) || (b != [] ==> b[0] != second)
    ensures Follows(a + [key] + b, first, second)
  {
    var grown := a + [key] + b;
    var i :| 0 <= i < |before| - 1 && before[i] == first && before[i + 1] == second;
    if i + 1 < |a| {
      assert grown[i] == first && grown[i + 1] == second;
    } else {
      assert i >= |a|;
      assert grown[i + 1] == first && grown[i + 2] == second;
    }
  }

  /** Every added key stands right behind its predecessor in the source, among the entries. */
  lemma {:induction false} AddedKeysFollow(source: seq<Item>, items: seq<Item>, missing: set<Text>, n: nat, m: nat)
    requires Consistent(source, items, missing) && 0 < m < n <= |EntryKeys(source)|
    requires EntryKeys(source)[m] in missing
    ensures Follows(EntryKeys(InsertMissing(source, items, missing, n)), EntryKeys(source)[m - 1], EntryKeys(source)[m])
  {
    hide EntryKeys, InsertionIndex;
    var order := EntryKeys(source);
    var before, key := InsertMissing(source, items, missing, n - 1), order[n - 1];
    LastIndexOfDistinct(order, n - 1);
    if key in missing {
      PredecessorIsPresent(source, items, missing, n - 1);
      var a, b := InsertionPlace(source, order, n - 1, before, AddedEntry(source, key));
      var keys := a + [key] + b;
      if m == n - 1 {
        assert keys[|a| - 1] == order[m - 1] && keys[|a|] == key;
      } else {
        AddedKeysFollow(source, items, missing, n - 1, m);
        assert order[m - 1] != order[n - 2];
        FollowsKept(EntryKeys(before), a, key, b, order[m - 1], order[m]);
      }
    } else {
      AddedKeysFollow(source, items, missing, n - 1, m);
    }
  }

  lemma {:induction false} OnlyInAll(keys: seq<Text>, wanted: set<Text>)
    ensures (forall k :: k in keys ==> k in wanted) ==> OnlyIn(keys, wanted) == keys
    ensures (forall k :: k in keys ==> k !in wanted) ==> OnlyIn(keys, wanted) == []
  {
    if keys != [] {
      assert keys[0] in keys;
      OnlyInAll(keys[1..], wanted);
    }
  }

  lemma {:induction false} OnlyInHas(keys: seq<Text>, wanted: set<Text>, key: Text)
    ensures key in OnlyIn(keys, wanted) <==> key in keys && key in wanted
  {
    if keys != [] {
      OnlyInHas(keys[1..], wanted, key);
    }
  }

  lemma {:induction false} KeysOfWithout(items: seq<Item>, keys: set<Text>, universe: set<Text>)
    requires KeySet(items) <= universe
    ensures EntryKeys(Without(items, keys)) == OnlyIn(EntryKeys(items), universe - keys)
  {
    if items != [] {
      assert items[0].Entry? ==> items[0].key in KeySet(items);
      assert KeySet(items[1..]) <= KeySet(items);
      KeysOfWithout(items[1..], keys, universe);
      var head := if KeyedIn(items[0], keys) then [] else [items[0]];
      EntryKeysAppend(head, Without(items[1..], keys));
      if items[0].Entry? {
        OneEntryKey(items[0]);
        assert EntryKeys(items)[1..] == EntryKeys(items[1..]);
      } else {
        assert EntryKeys(items) == EntryKeys(items[1..]) && EntryKeys(head) == EntryKeys(head[1..]);
      }
    }
  }

  lemma {:induction false} SplitUnique(before: seq<Text>, i: nat, a: seq<Text>, b: seq<Text>)
    requires Distinct(before) && before == a + b && i < |before|
    ensures a != [] && a[|a| - 1] == before[i] ==> a == before[..i + 1] && b == before[i + 1..]
    ensures b != [] && b[0] == before[i] ==> a == before[..i] && b == before[i..]
  {
    if a != [] && a[|a| - 1] == before[i] {
      assert before[|a| - 1] == before[i];
    }
    if b != [] && b[0] == before[i] {
      assert before[|a|] == before[i];
    }
  }

  lemma {:induction false} NextOfFirst(order: seq<Text>, at: nat, present: seq<Text>, wanted: set<Text>)
    requires at <= |order| && present == OnlyIn(order[at..], wanted)
    ensures NextKey(order, at, present) == if present == [] then None else Some(present[0])
    decreases |order| - at
  {
    if at < |order| {
      assert order[at..][1..] == order[at + 1..];
      OnlyInHas(order[at..], wanted, order[at]);
      if order[at] !in wanted {
        NextOfFirst(order, at + 1, present, wanted);
      }
    }
  }

  /** If the surviving target keys stand in source order, then so do the keys after every step. */
  lemma {:induction false} OrderSoFar(source: seq<Item>, items: seq<Item>, missing: set<Text>, n: nat)
    requires Consistent(source, items, missing) && n <= |EntryKeys(source)|
    requires EntryKeys(items) == OnlyIn(EntryKeys(source), KeySet(items))
    ensures EntryKeys(InsertMissing(source, items, missing, n))
            == EntryKeys(source)[..n] + OnlyIn(EntryKeys(source)[n..], KeySet(items))
  {
    hide EntryKeys, InsertionIndex, KeySet;
    var order, kept := EntryKeys(source), KeySet(items);
    if n == 0 {
      assert order[..0] == [] && order[0..] == order;
    } else {
      OrderSoFar(source, items, missing, n - 1);
      var before, key := InsertMissing(source, items, missing, n - 1), order[n - 1];
      var rest := OnlyIn(order[n..], kept);
      assert order[n - 1..][1..] == order[n..] && order[..n] == order[..n - 1] + [key];
      KeyIsCommonOrMissing(source, items, missing, key);
      if key in missing {
        assert EntryKeys(before) == order[..n - 1] + rest;
        InsertionInOrder(source, items, missing, n);
      }
    }
  }

  lemma {:induction false} KeyIsCommonOrMissing(source: seq<Item>, items: seq<Item>, missing: set<Text>, key: Text)
    requires Consistent(source, items, missing) && key in EntryKeys(source)
    ensures key in KeySet(items) <==> key !in missing
  {
    assert key in KeySet(source);
  }

  lemma {:induction false} InsertionInOrder(source: seq<Item>, items: seq<Item>, missing: set<Text>, n: nat)
    requires Consistent(source, items, missing) && 0 < n <= |EntryKeys(source)|
    requires EntryKeys(items) == OnlyIn(EntryKeys(source), KeySet(items))
    requires EntryKeys(source)[n - 1] in missing
    requires EntryKeys(InsertMissing(source, items, missing, n - 1))
             == EntryKeys(source)[..n - 1] + OnlyIn(EntryKeys(source)[n..], KeySet(items))
    ensures EntryKeys(InsertMissing(source, items, missing, n))
            == EntryKeys(source)[..n] + OnlyIn(EntryKeys(source)[n..], KeySet(items))
  {
    hide EntryKeys, InsertionIndex, KeySet, Without, OnlyIn, Consistent;
    var order := EntryKeys(source);
    assert Distinct(order) by {
      DistinctSource(source, items, missing);
    }
    var before, key := InsertMissing(source, items, missing, n - 1), order[n - 1];
    var rest := OnlyIn(order[n..], KeySet(items));
    var keys := EntryKeys(before);
    OrderedItemsAreDistinct(source, items, missing);
    GrowsDistinct(source, items, missing, n - 1);
    LastIndexOfDistinct(order, n - 1);
    var a, b := InsertionPlace(source, order, n - 1, before, AddedEntry(source, key));
    assert order[..n] == order[..n - 1] + [key];
    if n > 1 {
      PredecessorIsPresent(source, items, missing, n - 1);
      assert keys[n - 2] == order[n - 2];
      SplitUnique(keys, n - 2, a, b);
      assert a == order[..n - 1] && b == rest;
    } else {
      assert keys == rest;
      NextOfFirst(order, 1, rest, KeySet(items));
      if rest != [] {
        SplitUnique(keys, 0, a, b);
      }
    }
  }

  lemma {:induction false} GrowsDistinct(source: seq<Item>, items: seq<Item>, missing: set<Text>, n: nat)
    requires Consistent(source, items, missing) && Distinct(EntryKeys(items)) && n <= |EntryKeys(source)|
    ensures Distinct(EntryKeys(InsertMissing(source, items, missing, n)))
  {
    hide EntryKeys, InsertMissing, OnlyIn;
    KeysSoFar(source, items, missing, n);
    var added := OnlyIn(EntryKeys(source)[..n], missing);
    OnlyInDistinct(EntryKeys(source)[..n], missing);
    forall k | k in EntryKeys(items) ensures k !in added {
      OnlyInHas(EntryKeys(source)[..n], missing, k);
      assert k in KeySet(items);
    }
    DistinctTogether(EntryKeys(InsertMissing(source, items, missing, n)), EntryKeys(items), added);
  }

  lemma {:induction false} DistinctSource(source: seq<Item>, items: seq<Item>, missing: set<Text>)
    requires Consistent(source, items, missing)
    ensures Distinct(EntryKeys(source))
  {
  }

  lemma {:induction false} OnlyInDistinct(keys: seq<Text>, wanted: set<Text>)
    requires Distinct(keys)
    ensures Distinct(OnlyIn(keys, wanted))
  {
    if keys != [] {
      assert forall i, j :: 0 <= i < j < |keys[1..]| ==> keys[1..][i] == keys[i + 1] && keys[1..][j] == keys[j + 1];
      OnlyInDistinct(keys[1..], wanted);
      var tail := OnlyIn(keys[1..], wanted);
      OnlyInHas(keys[1..], wanted, keys[0]);
      assert keys[0] !in keys[1..];
      if keys[0] in wanted {
        forall i, j | 0 <= i < j < |[keys[0]] + tail| ensures ([keys[0]] + tail)[i] != ([keys[0]] + tail)[j] {
          assert tail[j - 1] in tail;
        }
      }
    }
  }

  lemma {:induction false} OrderedItemsAreDistinct(source: seq<Item>, items: seq<Item>, missing: set<Text>)
    requires Consistent(source, items, missing)
    requires EntryKeys(items) == OnlyIn(EntryKeys(source), KeySet(items))
    ensures Distinct(EntryKeys(items))
  {
    OnlyInDistinct(EntryKeys(source), KeySet(items));
  }

  // ---------------------------------------------------------- the main results

  lemma {:induction false} WithoutKeys(items: seq<Item>, keys: set<Text>)
    ensures KeySet(Without(items, keys)) == KeySet(items) - keys
    ensures Distinct(EntryKeys(items)) ==> Distinct(EntryKeys(Without(items, keys)))
  {
    var universe := KeySet(items);
    KeysOfWithout(items, keys, universe);
    forall k ensures k in KeySet(Without(items, keys)) <==> k in KeySet(items) - keys {
      OnlyInHas(EntryKeys(items), universe - keys, k);
    }
    if Distinct(EntryKeys(items)) {
      OnlyInDistinct(EntryKeys(items), universe - keys);
    }
  }

  lemma {:induction false} SyncIsConsistent(target: seq<Item>, source: seq<Item>)
    requires Distinct(EntryKeys(source))
    ensures Consistent(source, Without(target, Extra(target, source)), Missing(target, source))
    ensures KeySet(Without(target, Extra(target, source))) == KeySet(source) * KeySet(target)
  {
    WithoutKeys(target, Extra(target, source));
  }

  /** The synchronised file has exactly the source's keys; taking out what was added leaves
      exactly the target lines that had a right to stay, comments included, in their order;
      what was added is spelled as in the source; a key is doubled exactly when the target doubled
      a surviving one or the source a missing one. */
  lemma {:induction false} SynchronizedKeepsLines(target: seq<Item>, source: seq<Item>)
    ensures var result, missing, kept := Synchronized(target, source), Missing(target, source),
            Without(target, Extra(target, source));
            && KeySet(result) == KeySet(source)
            && Without(result, missing) == kept
            && (forall item :: item in result && KeyedIn(item, missing) ==>
                  item.key in EntryKeys(source) && item == AddedEntry(source, item.key))
            && (Distinct(EntryKeys(result)) <==> Distinct(EntryKeys(kept))
                                                 && Distinct(OnlyIn(EntryKeys(source), missing)))
  {
    hide EntryKeys, InsertMissing, Without, OnlyIn, Distinct;
    var kept, missing, n := Without(target, Extra(target, source)), Missing(target, source), |EntryKeys(source)|;
    WithoutKeys(target, Extra(target, source));
    KeysSoFar(source, kept, missing, n);
    assert EntryKeys(source)[..n] == EntryKeys(source);
    InsertionsOnlyAdd(source, kept, missing, n);
    var added := OnlyIn(EntryKeys(source), missing);
    forall k | k in EntryKeys(kept) ensures k !in added {
      OnlyInHas(EntryKeys(source), missing, k);
      assert k in KeySet(kept);
    }
    DistinctTogether(EntryKeys(Synchronized(target, source)), EntryKeys(kept), added);
  }

  /** Among the entries of the result, an added key always stands right behind its predecessor
      in the source. */
  lemma {:induction false} AddedKeysFollowTheSource(target: seq<Item>, source: seq<Item>, m: nat)
    requires Distinct(EntryKeys(source)) && 0 < m < |EntryKeys(source)|
    requires EntryKeys(source)[m] in Missing(target, source)
    ensures Follows(EntryKeys(Synchronized(target, source)), EntryKeys(source)[m - 1], EntryKeys(source)[m])
  {
    SyncIsConsistent(target, source);
    AddedKeysFollow(source, Without(target, Extra(target, source)), Missing(target, source), |EntryKeys(source)|, m);
  }

  /** The result lists its entries in source order if and only if the target listed the keys it
      shares with the source in source order, each once. */
  lemma {:induction false} SynchronizedOrder(target: seq<Item>, source: seq<Item>)
    requires Distinct(EntryKeys(source))
    ensures EntryKeys(Synchronized(target, source)) == EntryKeys(source)
            <==> EntryKeys(Without(target, Extra(target, source))) == OnlyIn(EntryKeys(source), KeySet(target))
  {
    hide EntryKeys, InsertMissing, OnlyIn, Without;
    var order, missing, n := EntryKeys(source), Missing(target, source), |EntryKeys(source)|;
    var kept := Without(target, Extra(target, source));
    SyncIsConsistent(target, source);
    OnlyInSame(order, KeySet(source), KeySet(target));
    if EntryKeys(kept) == OnlyIn(order, KeySet(target)) {
      OrderSoFar(source, kept, missing, n);
      assert order[..n] == order && order[n..] == [];
      NoKeys(KeySet(kept));
    }
    if EntryKeys(Synchronized(target, source)) == order {
      SynchronizedKeepsLines(target, source);
      KeysOfWithout(Synchronized(target, source), missing, KeySet(source));
      assert KeySet(source) - missing == KeySet(source) * KeySet(target);
    }
  }

  /** With a source that names a missing key twice, every occurrence is inserted at the place of the
      last one: the source lists `b`, `a`, `b`, and a target with `a` becomes `a`, `b`, `b`. */
  lemma {:induction false} DuplicateSourceLosesOrder(a: Item, b: Item, t: Item)
    requires a.Entry? && b.Entry? && t.Entry? && a.key == t.key != b.key
    ensures var source := [b, a, b];
            && EntryKeys(Without([t], Extra([t], source))) == OnlyIn(EntryKeys(source), KeySet([t]))
            && EntryKeys(Synchronized([t], source)) == [a.key, b.key, b.key] != EntryKeys(source)
  {
    var source, x, y := [b, a, b], a.key, b.key;
    assert source[1..] == [a, b] && [a, b][1..] == [b] && [b][1..] == [] && [t][1..] == [];
    assert EntryKeys([b]) == [y] && EntryKeys([a, b]) == [x, y] && EntryKeys([t]) == [x];
    assert EntryKeys(source) == [y, x, y];
    assert KeySet([t]) == {x} && KeySet(source) == {x, y};
    assert Extra([t], source) == {} && Missing([t], source) == {y};
    assert Without([], {}) == [] && Without([t], {}) == [t];
    TripleInserted(source, [t], x, y);
    assert [y, x, y][1..] == [x, y] && [x, y][1..] == [y] && [y][1..] == [];
    assert OnlyIn([y], {x}) == [] && OnlyIn([x, y], {x}) == [x];
    assert [y, x, y][0] != x;
  }

  lemma {:induction false} TripleInserted(source: seq<Item>, items: seq<Item>, x: Text, y: Text)
    requires EntryKeys(source) == [y, x, y] && EntryKeys(items) == [x] && |items| == 1 && x != y
    ensures EntryKeys(InsertMissing(source, items, {y}, 3)) == [x, y, y]
  {
    hide InsertionIndex, EntryKeys;
    var order := EntryKeys(source);
    assert order[1..] == [x, y] && order[1..][1..] == [y] && [y][1..] == [];
    assert LastIndex([y], y) == 0 && LastIndex([x, y], y) == 1;
    assert LastIndex(order, y) == 2;
    var e := AddedEntry(source, y);
    assert InsertMissing(source, items, {y}, 0) == items;
    var a, b := InsertionPlace(source, order, 2, items, e);
    assert PreviousKey(order, 2, [x]) == Some(x);
    var one := InsertMissing(source, items, {y}, 1);
    assert EntryKeys(one) == [x, y];
    assert InsertMissing(source, items, {y}, 2) == one;
    var c, d := InsertionPlace(source, order, 2, one, e);
    assert PreviousKey(order, 2, [x, y]) == Some(x);
    assert c == [x] && d == [y];
  }

  lemma {:induction false} NoKeys(wanted: set<Text>)
    ensures OnlyIn([], wanted) == []
  {
  }

  lemma {:induction false} OnlyInSame(keys: seq<Text>, all: set<Text>, wanted: set<Text>)
    requires forall k :: k in keys ==> k in all
    ensures OnlyIn(keys, all * wanted) == OnlyIn(keys, wanted)
  {
    if keys != [] {
      assert keys[0] in keys;
      OnlyInSame(keys[1..], all, wanted);
    }
  }

  // -------------------------------------------------------------- the methods

  method CountComments(items: seq<Item>, from: nat, to: nat) returns (n: nat)
    requires from <= |items| && to <= |items|
    ensures n == if from <= to then CommentCount(items[from..to]) else 0
  {
    n := 0;
    if from <= to {
      for i := from to to
        invariant n + CommentCount(items[i..to]) == CommentCount(items[from..to])
      {
        assert items[i..to][0] == items[i] && items[i..to][1..] == items[i + 1..to];
        if items[i].Comment? {
          n := n + 1;
        }
      }
    }
  }

  method FindInsertionIndexForMissingKey(key: Text, order: seq<Text>, source: seq<Item>, final: seq<Item>)
    returns (index: nat)
    requires order == EntryKeys(source) && key in order
    ensures index == InsertionIndex(source, order, LastIndex(order, key), final)
  {
    hide EntryKeys, CommentsBetween, LineOf, LastIndex;
    var at, present := LastIndex(order, key), EntryKeys(final);
    AnchorsArePresent(order, at, present);

    var before: int := at - 1;
    while before >= 0 && order[before] !in present
      invariant -1 <= before < at
      invariant PreviousKey(order, before + 1, present) == PreviousKey(order, at, present)
    {
      before := before - 1;
    }
    if before >= 0 {
      var previous := order[before];
      index := LineOf(final, previous) + 1;
      ghost var start := index;
      CommentsFit(final, start);
      var allowed := CountComments(source, LineOf(source, previous) + 1, LineOf(source, key));
      assert allowed == CommentsBetween(source, previous, key) by {
        BetweenIs(source, previous, key);
      }
      ghost var budget := allowed;
      while index < |final| && allowed > 0 && final[index].Comment?
        invariant start <= index <= |final|
        invariant index + Min(allowed, CommentsAfter(final, index)) == start + Min(budget, CommentsAfter(final, start))
      {
        index := index + 1;
        allowed := allowed - 1;
      }
      return;
    }

    var after := at + 1;
    while after < |order| && order[after] !in present
      invariant at < after <= |order|
      invariant NextKey(order, after, present) == NextKey(order, at + 1, present)
    {
      after := after + 1;
    }
    if after < |order| {
      var next := order[after];
      index := LineOf(final, next);
      ghost var start := index;
      CommentsFit(final, start);
      var allowed := CountComments(source, LineOf(source, key) + 1, LineOf(source, next));
      assert allowed == CommentsBetween(source, key, next) by {
        BetweenIs(source, key, next);
      }
      ghost var budget := allowed;
      while index > 0 && allowed > 0 && final[index - 1].Comment?
        invariant index <= start
        invariant index - Min(allowed, CommentsBefore(final, index))
                == start - Min(budget, CommentsBefore(final, start))
      {
        index := index - 1;
        allowed := allowed - 1;
      }
      return;
    }
    index := |final|;
  }

  lemma {:induction false} BetweenIs(source: seq<Item>, first: Text, second: Text)
    requires first in EntryKeys(source) && second in EntryKeys(source)
    ensures CommentsBetween(source, first, second)
            == var a, b := LineOf(source, first) + 1, LineOf(source, second);
               if a <= b then CommentCount(source[a..b]) else 0
  {
  }

  lemma {:induction false} NothingToSynchronize(target: seq<Item>, source: seq<Item>)
    requires Missing(target, source) == {} && Extra(target, source) == {}
    ensures Synchronized(target, source) == target
  {
    WithoutNothing(target, {});
    NothingInserted(source, target, |EntryKeys(source)|);
  }

  lemma {:induction false} NothingInserted(source: seq<Item>, items: seq<Item>, n: nat)
    requires n <= |EntryKeys(source)|
    ensures InsertMissing(source, items, {}, n) == items
  {
    if n > 0 {
      NothingInserted(source, items, n - 1);
    }
  }

  method SynchronizeKeys(target: seq<Item>, source: seq<Item>)
    returns (final: seq<Item>, missing: set<Text>, extra: set<Text>)
    ensures missing == Missing(target, source) && extra == Extra(target, source)
    ensures final == Synchronized(target, source)
  {
    hide EntryKeys, InsertionIndex, LastIndex;
    missing, extra := KeySet(source) - KeySet(target), KeySet(target) - KeySet(source);
    if missing == {} && extra == {} {
      NothingToSynchronize(target, source);
      return target, missing, extra;
    }
    final := Without(target, extra);
    var order := EntryKeys(source);
    for n := 0 to |order|
      invariant final == InsertMissing(source, Without(target, extra), missing, n)
    {
      if order[n] in missing {
        var index := FindInsertionIndexForMissingKey(order[n], order, source, final);
        final := final[..index] + [AddedEntry(source, order[n])] + final[index..];
      }
    }
  }

  // ------------------------------------------------- where exactly an added key stands

  /** Line `i` holds the last entry of the key. */
  predicate IsLastLine(items: seq<Item>, key: Text, i: nat) {
    && i < |items| && items[i].Entry? && items[i].key == key
    && forall j :: i < j < |items| ==> !(items[j].Entry? && items[j].key == key)
  }

  lemma {:induction false} LastLineIs(items: seq<Item>, key: Text, i: nat)
    requires IsLastLine(items, key, i)
    ensures key in EntryKeys(items) && LineOf(items, key) == i
  {
    EntryKeysHas(items, key);
    EntryKeysHas(items[1..], key);
    if i > 0 {
      assert items[1..][i - 1] == items[i];
      assert forall j :: i - 1 < j < |items[1..]| ==> items[1..][j] == items[j + 1];
      LastLineIs(items[1..], key, i - 1);
    } else {
      assert forall j :: 0 <= j < |items[1..]| ==> items[1..][j] == items[j + 1];
    }
  }

  /** The comments that stand strictly between two lines. */
  function RemarksBetween(items: seq<Item>, a: nat, b: nat): set<nat> {
    set j: nat | a < j < b && j < |items| && items[j].Comment?
  }

  lemma {:induction false} RemarksAreCounted(items: seq<Item>, a: nat, b: nat)
    requires a < |items| && b <= |items|
    ensures |RemarksBetween(items, a, b)| == if a + 1 <= b then CommentCount(items[a + 1..b]) else 0
    decreases b - a
  {
    if a + 1 < b {
      RemarksAreCounted(items, a + 1, b);
      assert items[a + 1..b][0] == items[a + 1] && items[a + 1..b][1..] == items[a + 2..b];
      var rest := RemarksBetween(items, a + 1, b);
      assert RemarksBetween(items, a, b) == if items[a + 1].Comment? then rest + {a + 1} else rest;
    } else {
      assert RemarksBetween(items, a, b) == {};
    }
  }

  lemma {:induction false} CommentsStop(items: seq<Item>, i: nat)
    requires i <= |items|
    ensures i + CommentsAfter(items, i) < |items| ==> !items[i + CommentsAfter(items, i)].Comment?
    decreases |items| - i
  {
    if i < |items| && items[i].Comment? { CommentsStop(items, i + 1); }
  }

  lemma {:induction false} CommentsStart(items: seq<Item>, i: nat)
    requires i <= |items|
    ensures CommentsBefore(items, i) < i ==> !items[i - CommentsBefore(items, i) - 1].Comment?
  {
    if i > 0 && items[i - 1].Comment? { CommentsStart(items, i - 1); }
  }

  lemma {:induction false} NearestBefore(order: seq<Text>, at: nat, present: seq<Text>, m: nat)
    requires m < at <= |order| && order[m] in present && forall j :: m < j < at ==> order[j] !in present
    ensures PreviousKey(order, at, present) == Some(order[m])
  {
    if m < at - 1 { NearestBefore(order, at - 1, present, m); }
  }

  lemma {:induction false} NoneBefore(order: seq<Text>, at: nat, present: seq<Text>)
    requires at <= |order| && forall j :: 0 <= j < at ==> order[j] !in present
    ensures PreviousKey(order, at, present) == None
  {
    if at > 0 { NoneBefore(order, at - 1, present); }
  }

  lemma {:induction false} NearestAfter(order: seq<Text>, at: nat, present: seq<Text>, m: nat)
    requires at <= m < |order| && order[m] in present && forall j :: at <= j < m ==> order[j] !in present
    ensures NextKey(order, at, present) == Some(order[m])
    decreases m - at
  {
    if at < m { NearestAfter(order, at + 1, present, m); }
  }

  /** Behind the nearest predecessor that is there, a new key stands behind comments only: as many as
      stand between the two in the source, unless there are no more. */
  lemma {:induction false} PlacedBehindPredecessor(source: seq<Item>, order: seq<Text>, at: nat, items: seq<Item>,
        m: nat, i: nat, a: nat, b: nat)
    requires order == EntryKeys(source) && m < at < |order|
    requires order[m] in EntryKeys(items) && forall j :: m < j < at ==> order[j] !in EntryKeys(items)
    requires IsLastLine(items, order[m], i) && IsLastLine(source, order[m], a) && IsLastLine(source, order[at], b)
    ensures var p, remarks := InsertionIndex(source, order, at, items), |RemarksBetween(source, a, b)|;
            && i < p <= |items| && (forall j :: i < j < p ==> items[j].Comment?) && p - i - 1 <= remarks
            && (p - i - 1 == remarks || p == |items| || !items[p].Comment?)
  {
    hide EntryKeys, CommentCount, RemarksBetween;
    NearestBefore(order, at, EntryKeys(items), m);
    LastLineIs(items, order[m], i);
    LastLineIs(source, order[m], a);
    LastLineIs(source, order[at], b);
    RemarksAreCounted(source, a, b);
    CommentsFit(items, i + 1);
    CommentsStop(items, i + 1);
  }

  /** Without such a predecessor it stands before the nearest successor and, likewise, before the
      comments above it. */
  lemma {:induction false} PlacedBeforeSuccessor(source: seq<Item>, order: seq<Text>, at: nat, items: seq<Item>,
        m: nat, i: nat, a: nat, b: nat)
    requires order == EntryKeys(source) && at < m < |order|
    requires forall j :: 0 <= j < at ==> order[j] !in EntryKeys(items)
    requires order[m] in EntryKeys(items) && forall j :: at < j < m ==> order[j] !in EntryKeys(items)
    requires IsLastLine(items, order[m], i) && IsLastLine(source, order[at], a) && IsLastLine(source, order[m], b)
    ensures var p, remarks := InsertionIndex(source, order, at, items), |RemarksBetween(source, a, b)|;
            && p <= i && (forall j :: p <= j < i ==> items[j].Comment?) && i - p <= remarks
            && (i - p == remarks || p == 0 || !items[p - 1].Comment?)
  {
    hide EntryKeys, CommentCount, RemarksBetween;
    NoneBefore(order, at, EntryKeys(items));
    NearestAfter(order, at + 1, EntryKeys(items), m);
    LastLineIs(items, order[m], i);
    LastLineIs(source, order[at], a);
    LastLineIs(source, order[m], b);
    RemarksAreCounted(source, a, b);
    CommentsFit(items, i);
    CommentsStart(items, i);
  }

  /** An added entry carries the raw key, separator and value of the last source entry of its key. */
  lemma {:induction false} AddedCarriesSource(source: seq<Item>, key: Text, j: nat)
    requires IsLastLine(source, key, j)
    ensures key in EntryKeys(source)
    ensures AddedEntry(source, key) == Entry(key, source[j].rawKey, source[j].separator, source[j].value, None, [])
  {
    LastLineIs(source, key, j);
  }
}
