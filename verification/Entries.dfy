/** Finding the entries of a key: the dictionary holds the value of the last one. */
module Entries {
  import opened Texts
  import opened PropertiesFile

  predicate HasKey(items: seq<Item>, key: Text) {
    exists i :: 0 <= i < |items| && items[i].Entry? && items[i].key == key
  }

  function LastEntry(items: seq<Item>, key: Text): (i: nat)
    requires HasKey(items, key)
    ensures i < |items| && items[i].Entry? && items[i].key == key
    ensures forall j :: i < j < |items| ==> !(items[j].Entry? && items[j].key == key)
  {
    var n := |items| - 1;
    if items[n].Entry? && items[n].key == key then n else
      assert forall j :: 0 <= j < n ==> items[..n][j] == items[j];
      LastEntry(items[..n], key)
  }

  lemma {:induction false} TranslationsKeys(items: seq<Item>, key: Text)
    ensures key in Translations(items) <==> HasKey(items, key)
    ensures HasKey(items, key) ==> Translations(items)[key] == items[LastEntry(items, key)].value
  {
    if items != [] {
      var n := |items| - 1;
      TranslationsKeys(items[..n], key);
      assert forall j :: 0 <= j < n ==> items[..n][j] == items[j];
      if HasKey(items, key) && !(items[n].Entry? && items[n].key == key) {
        assert items[..n][LastEntry(items, key)].key == key;
      }
    }
  }

  /** The same entries in the same places, whatever their values. */
  ghost predicate SameKeys(a: seq<Item>, b: seq<Item>) {
    && |a| == |b|
    && forall i :: 0 <= i < |a| ==> a[i].Entry? == b[i].Entry? && (a[i].Entry? ==> a[i].key == b[i].key)
  }

  lemma {:induction false} SameKeysSameLast(a: seq<Item>, b: seq<Item>, key: Text)
    requires SameKeys(a, b)
    ensures HasKey(a, key) <==> HasKey(b, key)
    ensures HasKey(a, key) ==> LastEntry(a, key) == LastEntry(b, key)
  {
    if HasKey(a, key) {
      var i := LastEntry(a, key);
      assert b[i].Entry? && b[i].key == key;
    }
    if HasKey(b, key) {
      var i := LastEntry(b, key);
      assert a[i].Entry? && a[i].key == key;
    }
  }

  /** The value of a key that has entries. */
  lemma {:induction false} TranslationOf(items: seq<Item>, i: nat)
    requires i < |items| && items[i].Entry?
    ensures items[i].key in Translations(items)
    ensures HasKey(items, items[i].key)
    ensures LastEntry(items, items[i].key) == i ==> Translations(items)[items[i].key] == items[i].value
  {
    TranslationsKeys(items, items[i].key);
  }

  lemma {:induction false} OneTranslation(item: Item)
    requires item.Entry?
    ensures Translations([item]) == map[item.key := item.value]
  {
    assert [item][..0] == [] && Translations([]) == map[];
  }

  ghost predicate DistinctKeys(lines: seq<Item>) {
    forall i, j :: 0 <= i < j < |lines| && lines[i].Entry? && lines[j].Entry? ==> lines[i].key != lines[j].key
  }

  lemma {:induction false} OnlyEntryIsLast(lines: seq<Item>, i: nat)
    requires DistinctKeys(lines) && i < |lines| && lines[i].Entry?
    ensures HasKey(lines, lines[i].key) && LastEntry(lines, lines[i].key) == i
    ensures lines[i].key in Translations(lines) && Translations(lines)[lines[i].key] == lines[i].value
  {
    TranslationOf(lines, i);
    var j := LastEntry(lines, lines[i].key);
    assert j >= i;
  }

  /** The entry appended for a key the file does not have yet: it was never read from a file. */
  function NewEntry(key: Text, value: Text): Item {
    Entry(key, None, [EQUALS], value, None, [])
  }

  function Override(item: Item, values: map<Text, Text>): Item {
    if item.Entry? && item.key in values then item.(value := values[item.key]) else item
  }

  /** Every entry whose key has a value there takes it. */
  function OverrideAll(items: seq<Item>, values: map<Text, Text>): seq<Item> {
    seq(|items|, i requires 0 <= i < |items| => Override(items[i], values))
  }

  lemma {:induction false} OverrideAllKeepsKeys(items: seq<Item>, values: map<Text, Text>)
    ensures SameKeys(items, OverrideAll(items, values))
  {
  }

  /** The dictionary is overridden by the values given, on the keys it has. */
  lemma {:induction false} OverrideAllTranslations(items: seq<Item>, values: map<Text, Text>, key: Text)
    ensures key in Translations(OverrideAll(items, values)) <==> key in Translations(items)
    ensures key in Translations(items) ==>
              Translations(OverrideAll(items, values))[key]
              == if key in values then values[key] else Translations(items)[key]
  {
    var after := OverrideAll(items, values);
    TranslationsKeys(items, key);
    TranslationsKeys(after, key);
    OverrideAllKeepsKeys(items, values);
    SameKeysSameLast(items, after, key);
  }
}
