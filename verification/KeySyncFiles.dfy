/** Key synchronisation as the files on disk show it. */
module KeySyncFiles {
  import opened Texts
  import opened PropertiesSyntax
  import opened PropertiesKeys
  import opened PropertiesFile
  import opened PropertiesRoundTrip
  import opened PropertiesWriting
  import opened PropertiesAssembly
  import opened PropertiesChanges
  import opened PropertiesLines
  import opened Entries
  import opened KeySync

  // ------------------------------------------------------------- the main result

  lemma {:induction false} AddedEntryIsWritten(source: seq<Item>, key: Text, c: Rune)
    requires key in EntryKeys(source)
    requires ParsedEntry(SourceEntry(source, key))
    requires Lacks(SourceEntry(source, key).rawKey.value + SourceEntry(source, key).separator, c)
    requires Lacks(SourceEntry(source, key).value, c)
    requires c != NEWLINE && Lacks(NEWLINE_ESCAPE, c)
    ensures WrittenLine(AddedEntry(source, key)) && Lacks(Emit(AddedEntry(source, key)), c)
  {
    hide LineOf, EntryKeys, OpensEntry, SeparatesAt, SeparatorShape, SeparatorFits, LeadingSpaces, UnescapeKey, Replace;
    var s := SourceEntry(source, key);
    ReplaceKeeps(s.value, NEWLINE, NEWLINE_ESCAPE, c);
    LacksCons(s.rawKey.value + s.separator, EscapeNewlines(s.value), c);
    LacksCons(s.rawKey.value + s.separator + EscapeNewlines(s.value), [NEWLINE], c);
  }

  /** The target ends in an item that the end of the file cut off, and the synchroniser keeps it. */
  predicate KeepsCutOffEnd(target: Text, s: seq<Item>) {
    var t := ParseFile(target);
    !Terminated(target) && t != [] && !KeyedIn(t[|t| - 1], Extra(t, s))
  }

  predicate LastStaysLast(t: seq<Item>, s: seq<Item>) {
    t != [] && Synchronized(t, s) != [] && Synchronized(t, s)[|Synchronized(t, s)| - 1] == t[|t| - 1]
  }

  /** Every entry taken over from the source can be rewritten as one line. */
  ghost predicate AddedRewritable(t: seq<Item>, s: seq<Item>) {
    forall key :: key in Missing(t, s) ==> key in EntryKeys(s) && RewritableItem(AddedEntry(s, key))
  }

  /** Every entry taken over from the source can be rewritten as one line, and the target ended its
      last line and its last value, or loses its last item, or still has it last. */
  ghost predicate SyncFits(target: Text, source: Text) {
    var t, s := ParseFile(target), ParseFile(source);
    && AddedRewritable(t, s)
    && (Terminated(target) || (t != [] && KeyedIn(t[|t| - 1], Extra(t, s))) || LastStaysLast(t, s))
  }

  /** Reading the synchronised file again shows exactly the synchronised lines, if and only if
      every entry taken over from the source can be rewritten as one line, and the target ended
      its last line and its last value, or lost its last item, or still has it last. */
  lemma {:induction false} SynchronizedFileReadsBack(target: Text, source: Text)
    ensures var t, s := ParseFile(target), ParseFile(source);
            Views(ParseFile(Reassemble(Synchronized(t, s)))) == WrittenViews(Synchronized(t, s))
            <==> SyncFits(target, source)
  {
    hide UniversalNewlines, ReadLines, ParseLines, EntryKeys, Synchronized, Missing, Extra, Emit, Reassemble,
      SpelledOut,
      ReadsBack, Views, WrittenViews, Without, KeyedIn, CutOff, AddedRewritable, Terminated;
    var t, s := ParseFile(target), ParseFile(source);
    var result := Synchronized(t, s);
    FileItems(target);
    FileItems(source);
    SynchronizedLines(t, s);
    ReassembledLacks(result, CARRIAGE_RETURN);
    NewlinesAreUniversal(Reassemble(result));
    if KeepsCutOffEnd(target, s) {
      CutOffStays(t, s);
    } else {
      forall i | 0 <= i < |result|
        ensures KeyedIn(result[i], Missing(t, s)) ==> SpelledOut(result[i])
        ensures !KeyedIn(result[i], Missing(t, s)) ==> ReadsBack(result[i])
      {
        if KeyedIn(result[i], Missing(t, s)) {
          assert AddedIsWritten(s, result[i]);
        } else {
          SurvivorsStay(t, s, result[i]);
        }
      }
      AssembledExactly(result);
      AddedReadBack(t, s);
    }
  }

  /** What the synchroniser adds is spelled out, and reads back when it is rewritable. */
  ghost predicate AddedAreWritten(t: seq<Item>, s: seq<Item>) {
    forall i :: 0 <= i < |Synchronized(t, s)| && KeyedIn(Synchronized(t, s)[i], Missing(t, s)) ==>
      AddedIsWritten(s, Synchronized(t, s)[i])
  }

  predicate AddedIsWritten(s: seq<Item>, item: Item) {
    && item.Entry? && item.key in EntryKeys(s) && item == AddedEntry(s, item.key)
    && SpelledOut(item) && (ReadsBack(item) <==> RewritableItem(item))
  }

  lemma {:induction false} SynchronizedLines(t: seq<Item>, s: seq<Item>)
    requires forall item :: item in s ==> ParsedItem(item)
    requires forall i :: 0 <= i < |t| ==> ParsedItem(t[i])
    ensures AddedAreWritten(t, s)
    ensures forall i :: 0 <= i < |Synchronized(t, s)| ==> Lacks(Emit(Synchronized(t, s)[i]), CARRIAGE_RETURN)
  {
    hide EntryKeys, Synchronized, Missing, Emit, SpelledOut, ReadsBack, RewritableItem, AddedEntry, ParsedEntry,
      Without, WrittenLine;
    var result := Synchronized(t, s);
    SynchronizedKeepsLines(t, s);
    forall i | 0 <= i < |result|
      ensures Lacks(Emit(result[i]), CARRIAGE_RETURN)
      ensures KeyedIn(result[i], Missing(t, s)) ==> AddedIsWritten(s, result[i])
    {
      if KeyedIn(result[i], Missing(t, s)) {
        AddedLine(s, result[i].key);
      } else {
        SurvivorsStay(t, s, result[i]);
      }
    }
  }

  lemma {:induction false} AddedReadBack(t: seq<Item>, s: seq<Item>)
    requires AddedAreWritten(t, s)
    ensures AddedRewritable(t, s)
            <==> forall i :: 0 <= i < |Synchronized(t, s)| && KeyedIn(Synchronized(t, s)[i], Missing(t, s)) ==>
                               ReadsBack(Synchronized(t, s)[i])
  {
    hide EntryKeys, Synchronized, Missing, SpelledOut, ReadsBack, RewritableItem, AddedEntry;
    var result := Synchronized(t, s);
    forall i | 0 <= i < |result| && KeyedIn(result[i], Missing(t, s)) ensures AddedIsWritten(s, result[i]) {
    }
    forall key | key in Missing(t, s)
      ensures key in EntryKeys(s) && exists i :: 0 <= i < |result| && KeyedIn(result[i], Missing(t, s))
                                                 && result[i].key == key
    {
      MissingIsAdded(t, s, key);
    }
  }

  lemma {:induction false} MissingIsAdded(t: seq<Item>, s: seq<Item>, key: Text)
    requires key in Missing(t, s)
    ensures key in EntryKeys(s)
    ensures exists i :: 0 <= i < |Synchronized(t, s)| && KeyedIn(Synchronized(t, s)[i], Missing(t, s))
                        && Synchronized(t, s)[i].key == key
  {
    hide EntryKeys, Synchronized;
    SynchronizedKeepsLines(t, s);
    assert key in KeySet(Synchronized(t, s));
    EntryKeysHas(Synchronized(t, s), key);
  }

  lemma {:induction false} SurvivorsStay(t: seq<Item>, s: seq<Item>, item: Item)
    requires item in Synchronized(t, s) && !KeyedIn(item, Missing(t, s))
    ensures item in t && !KeyedIn(item, Extra(t, s))
  {
    hide EntryKeys, Synchronized, Missing, Extra, Without, KeyedIn;
    SynchronizedKeepsLines(t, s);
    WithoutHas(Synchronized(t, s), Missing(t, s), item);
    WithoutHas(t, Extra(t, s), item);
  }

  lemma {:induction false} WithoutHas(items: seq<Item>, keys: set<Text>, item: Item)
    ensures item in Without(items, keys) <==> item in items && !KeyedIn(item, keys)
  {
    hide KeyedIn;
    if items != [] {
      WithoutHas(items[1..], keys, item);
    }
  }

  /** Where the last item that is not taken out stands. */
  lemma {:induction false} LastRemaining(items: seq<Item>, keys: set<Text>, front: seq<Item>, z: Item) returns (k: nat)
    requires Without(items, keys) == front + [z]
    ensures k < |items| && items[k] == z && Without(items[..k], keys) == front
    ensures forall i :: k < i < |items| ==> KeyedIn(items[i], keys)
  {
    hide KeyedIn, Without;
    NothingWithout(keys);
    var n := |items| - 1;
    assert items == items[..n] + [items[n]];
    WithoutAppend(items[..n], [items[n]], keys);
    WithoutSingle(items[n], keys);
    if KeyedIn(items[n], keys) {
      k := LastRemaining(items[..n], keys, front, z);
      assert items[..n][..k] == items[..k];
    } else {
      k := n;
      LastsEqual(Without(items[..n], keys), items[n], front, z);
    }
  }

  lemma {:induction false} LastsEqual(a: seq<Item>, x: Item, b: seq<Item>, y: Item)
    requires a + [x] == b + [y]
    ensures a == b && x == y
  {
    assert |a + [x]| == |b + [y]|;
    assert (a + [x])[|a|] == x && (b + [y])[|b|] == y;
    assert a == (a + [x])[..|a|] && b == (b + [y])[..|b|];
  }

  lemma {:induction false} NothingWithout(keys: set<Text>)
    ensures Without([], keys) == []
  {
  }

  lemma {:induction false} WithoutSingle(item: Item, keys: set<Text>)
    ensures Without([item], keys) == if KeyedIn(item, keys) then [] else [item]
  {
    assert [item][1..] == [];
  }

  /** Behind a last item that stays, only added entries can stand. */
  lemma {:induction false} LastStays(t: seq<Item>, s: seq<Item>) returns (k: nat)
    requires t != [] && !KeyedIn(t[|t| - 1], Extra(t, s))
    ensures k < |Synchronized(t, s)| && Synchronized(t, s)[k] == t[|t| - 1] && !KeyedIn(t[|t| - 1], Missing(t, s))
    ensures forall i :: k < i < |Synchronized(t, s)| ==> KeyedIn(Synchronized(t, s)[i], Missing(t, s))
    ensures forall i :: 0 <= i < k ==> KeyedIn(Synchronized(t, s)[i], Missing(t, s))
                                       || Synchronized(t, s)[i] in t[..|t| - 1]
  {
    hide EntryKeys, Synchronized, Missing, Extra, Without, KeyedIn;
    var result, n := Synchronized(t, s), |t| - 1;
    SynchronizedKeepsLines(t, s);
    assert t == t[..n] + [t[n]];
    WithoutAppend(t[..n], [t[n]], Extra(t, s));
    WithoutSingle(t[n], Extra(t, s));
    var front := Without(t[..n], Extra(t, s));
    k := LastRemaining(result, Missing(t, s), front, t[n]);
    WithoutHas(result, Missing(t, s), t[n]);
    assert t[n] in front + [t[n]];
    forall i | 0 <= i < k && !KeyedIn(result[i], Missing(t, s)) ensures result[i] in t[..n] {
      WithoutHas(result[..k], Missing(t, s), result[i]);
      WithoutHas(t[..n], Extra(t, s), result[i]);
    }
  }

  lemma {:induction false} CutOffStays(t: seq<Item>, s: seq<Item>)
    requires t != [] && !KeyedIn(t[|t| - 1], Extra(t, s)) && CutOff(t[|t| - 1])
    requires (forall i :: 0 <= i < |t| - 1 ==> ReadsBack(t[i])) && AddedAreWritten(t, s)
    ensures Views(ParseLines(ReadLines(Reassemble(Synchronized(t, s))))) == WrittenViews(Synchronized(t, s))
            <==> AddedRewritable(t, s) && LastStaysLast(t, s)
  {
    hide ReadLines, ParseLines, EntryKeys, Synchronized, Missing, Extra, Reassemble, SpelledOut, ReadsBack, Views,
      WrittenViews,
      KeyedIn, CutOff, AddedRewritable, RewritableItem, AddedEntry;
    var result, n := Synchronized(t, s), |t| - 1;
    var k := LastStays(t, s);
    forall i | 0 <= i < |result|
      ensures KeyedIn(result[i], Missing(t, s)) ==> SpelledOut(result[i])
      ensures i < k ==> KeyedIn(result[i], Missing(t, s)) || ReadsBack(result[i])
    {
      assert KeyedIn(result[i], Missing(t, s)) ==> AddedIsWritten(s, result[i]);
    }
    AssembledBehindCutOff(result, k);
    AddedReadBack(t, s);
  }

  lemma {:induction false} AddedLine(s: seq<Item>, key: Text)
    requires key in EntryKeys(s) && forall item :: item in s ==> ParsedItem(item)
    ensures var e := AddedEntry(s, key);
            && SpelledOut(e) && Lacks(Emit(e), CARRIAGE_RETURN)
            && (ReadsBack(e) <==> RewritableItem(e))
  {
    hide EntryKeys, LineOf, ParsedEntry, Emit, ReadsBack, LineStart, Rewritable;
    assert ParsedItem(SourceEntry(s, key));
    AddedEntryIsWritten(s, key, CARRIAGE_RETURN);
    WrittenEntryReadsBack(AddedEntry(s, key));
  }

  // ------------------------------------------------------ what translations remain

  /** The target file after its keys were synchronised; it is left alone when they agree. */
  function SynchronizedText(target: Text, source: Text): Text {
    var t, s := ParseFile(target), ParseFile(source);
    if Missing(t, s) == {} && Extra(t, s) == {} then target else Reassemble(Synchronized(t, s))
  }

  lemma {:induction false} WithoutTranslations(items: seq<Item>, keys: set<Text>, key: Text)
    requires key !in keys
    ensures key in Translations(Without(items, keys)) <==> key in Translations(items)
    ensures key in Translations(items) ==> Translations(Without(items, keys))[key] == Translations(items)[key]
  {
    hide Without, Translations;
    NothingWithout(keys);
    if items != [] {
      var n := |items| - 1;
      assert items == items[..n] + [items[n]];
      WithoutTranslations(items[..n], keys, key);
      WithoutAppend(items[..n], [items[n]], keys);
      WithoutSingle(items[n], keys);
      TranslationsAppend(items[..n], items[n]);
      TranslationsAppend(Without(items[..n], keys), items[n]);
      assert Without(items[..n], keys) + [] == Without(items[..n], keys);
    }
  }

  /** A key that both files have keeps its value in the synchronised lines. */
  lemma {:induction false} SyncKeepsTranslation(t: seq<Item>, s: seq<Item>, key: Text)
    requires key in Translations(t) && key in Translations(s)
    ensures key in Translations(Synchronized(t, s)) && Translations(Synchronized(t, s))[key] == Translations(t)[key]
  {
    hide EntryKeys, Synchronized, Translations, Without;
    SynchronizedKeepsLines(t, s);
    EntryKeysHas(t, key);
    EntryKeysHas(s, key);
    TranslationsKeys(t, key);
    TranslationsKeys(s, key);
    WithoutTranslations(Synchronized(t, s), Missing(t, s), key);
    WithoutTranslations(t, Extra(t, s), key);
  }

  /** The synchronised file, read again, has the synchronised lines. */
  lemma {:induction false} SynchronizedTextRereads(target: Text, source: Text)
    requires SyncFits(target, source)
    ensures Reread(Synchronized(ParseFile(target), ParseFile(source)), ParseFile(SynchronizedText(target, source)))
  {
    hide ParseFile, Synchronized, Missing, Extra, Views, WrittenViews, Reassemble, SyncFits;
    var t, s := ParseFile(target), ParseFile(source);
    if Missing(t, s) == {} && Extra(t, s) == {} {
      NothingToSynchronize(t, s);
      FileEntriesAreParsed(target);
      forall i | 0 <= i < |t| ensures RereadItem(t[i], t[i]) {
        if t[i].Entry? { NothingToEscape(t[i].value); }
      }
    } else {
      SynchronizedFileReadsBack(target, source);
      ShownIsReread(Synchronized(t, s), ParseFile(Reassemble(Synchronized(t, s))));
    }
  }

  // ------------------------------------------------------ where it can go wrong

  /** A parsed entry can be written out again as one line unless its key line has no separator
      and ends in a dangling backslash, or its separator is whitespace alone and the value its
      continuation lines brought starts with `=` or `:`. */
  lemma {:induction false} RewritableWhenParsed(item: Item)
    requires ParsedEntry(item)
    ensures RewritableItem(item) <==>
              && !Dangling(item.rawKey.value)
              && (item.value != [] && IsAssign(item.value[0]) ==> !AllSpace(item.separator))
  {
    hide Dangling, AllSpace, SeparatesAt, LeadingSpaces, UnescapeKey, OpensEntry;
    NothingToEscape(item.value);
  }

  const A: Text := [0x61]
  const B: Text := [0x62]
  const TWO: Rune := 0x32

  /** `a=1` and `b=2`, each on its line. */
  const SOURCE_TEXT: Text := (A + [EQUALS] + [ONE]) + [NEWLINE] + ((B + [EQUALS] + [TWO]) + [NEWLINE])

  /** `a=1` without its newline. */
  const OPEN_TEXT: Text := A + [EQUALS] + [ONE]

  /** `a=1` with a continuation that the end of the file cuts off. */
  const CUT_TEXT: Text := A + [EQUALS] + [ONE, BACKSLASH] + [NEWLINE]

  /** The synchroniser adds `b` behind the one entry of the target, and the file read back has lost
      it: its text has become part of the value of `a`. */
  ghost predicate LosesItsAddition(target: Text) {
    var t, s := ParseFile(target), ParseFile(SOURCE_TEXT);
    && Missing(t, s) == {B} && B in KeySet(Synchronized(t, s)) && AddedRewritable(t, s)
    && Translations(t) == map[A := [ONE]]
    && Translations(ParseFile(Reassemble(Synchronized(t, s)))) == map[A := [ONE] + B + [EQUALS] + [TWO]]
  }

  function EntryA(value: Text, text: Text): (item: Item)
    ensures item.Entry? && item.key == A && item.value == value
  {
    Entry(A, Some(A), [EQUALS], value, Some(value), text)
  }

  const SECOND: Text := B + [EQUALS] + [TWO] + [NEWLINE]

  const BOTH: Text := [ONE] + B + [EQUALS] + [TWO]

  /** A target without its final newline. */
  lemma {:induction false} MissingNewlineLosesAnEntry()
    ensures LosesItsAddition(OPEN_TEXT)
  {
    hide ParseFile, EntryA, Synchronized, Missing, KeySet, AddedRewritable;
    OpenTextParses();
    ExampleSynchronized(OPEN_TEXT);
    OneTranslation(EntryA(BOTH, OPEN_TEXT + SECOND));
  }

  lemma {:induction false} OpenTextParses()
    ensures ParseFile(OPEN_TEXT) == [EntryA([ONE], OPEN_TEXT)]
    ensures ParseFile(OPEN_TEXT + SECOND) == [EntryA(BOTH, OPEN_TEXT + SECOND)]
  {
    hide UniversalNewlines, ReadLines, ParseLines, UnescapeKey;
    ExampleLines();
    var line := SplitLine(A, [EQUALS], [ONE]);
    LetterLine(A[0], EQUALS, BOTH);
    PlainFileOfOne(SplitLine(A, [EQUALS], BOTH));
    assert OPEN_TEXT + SECOND == Unsplit(SplitLine(A, [EQUALS], BOTH)) + [NEWLINE];
    NewlinesAreUniversal(OPEN_TEXT);
    assert OPEN_TEXT == Unsplit(line) && Chomp(OPEN_TEXT) == OPEN_TEXT;
    ReadOpenLine(OPEN_TEXT);
    PlainEntry(line, OPEN_TEXT, []);
    assert [OPEN_TEXT] + [] == [OPEN_TEXT];
    NothingParsed();
  }

  /** A target that ends in a continuation. */
  lemma {:induction false} CutContinuationLosesAnEntry()
    ensures LosesItsAddition(CUT_TEXT)
  {
    hide ParseFile, EntryA, Synchronized, Missing, KeySet, AddedRewritable;
    CutTextParses();
    ExampleSynchronized(CUT_TEXT);
    OneTranslation(EntryA(BOTH, CUT_TEXT + SECOND));
  }

  lemma {:induction false} CutTextParses()
    ensures ParseFile(CUT_TEXT) == [EntryA([ONE], CUT_TEXT)]
    ensures ParseFile(CUT_TEXT + SECOND) == [EntryA(BOTH, CUT_TEXT + SECOND)]
  {
    hide ParseFile, UnescapeKey, Plain;
    ExampleLines();
    var line, next := SplitLine(A, [EQUALS], [ONE, BACKSLASH]), SplitLine(B, [EQUALS], [TWO]);
    LetterLine(A[0], EQUALS, [ONE, BACKSLASH]);
    assert Cut(line) == [ONE] && Unsplit(next)[0] == B[0];
    assert Continued(line);
    CutFile(line);
    SwallowingFile(line, next);
    assert CUT_TEXT == Unsplit(line) + [NEWLINE] && SECOND == Unsplit(next) + [NEWLINE]
           && Cut(line) + Unsplit(next) == BOTH;
  }

  lemma {:induction false} ReadOpenLine(line: Text)
    requires line != [] && OneLine(line)
    ensures ReadLines(line) == [line]
  {
    hide ReadLines;
    OpenLineIsProper(line);
    ReadLinesCons(line, []);
    NoLines();
    assert line + [] == line && [line] + [] == [line];
  }

  lemma {:induction false} OpenLineIsProper(line: Text)
    requires line != [] && OneLine(line)
    ensures ProperLine(line)
  {
    if |line| > 1 { OpenLineIsProper(line[1..]); }
  }

  lemma {:induction false} ExampleLines()
    ensures Plain(SplitLine(A, [EQUALS], [ONE])) && Plain(SplitLine(B, [EQUALS], [TWO]))
    ensures UnescapeKey(A) == A && UnescapeKey(B) == B
    ensures !Dangling([ONE]) && !Dangling([TWO]) && !Dangling(BOTH)
    ensures ProperLine(SECOND) && EndsLine(SECOND) && Lacks(SECOND, CARRIAGE_RETURN)
  {
    hide UnescapeKey, Plain;
    LetterLine(A[0], EQUALS, [ONE]);
    LetterLine(B[0], EQUALS, [TWO]);
    assert A == [A[0]] && B == [B[0]];
    EndedLine(SplitLine(B, [EQUALS], [TWO]));
  }

  lemma {:induction false} SourceTextParses()
    ensures ParseFile(SOURCE_TEXT)
            == [EntryA([ONE], A + [EQUALS] + [ONE] + [NEWLINE]),
                Entry(B, Some(B), [EQUALS], [TWO], Some([TWO]), SECOND)]
  {
    hide UnescapeKey, Plain, ParseFile;
    ExampleLines();
    PlainFileOfTwo(SplitLine(A, [EQUALS], [ONE]), SplitLine(B, [EQUALS], [TWO]));
  }

  /** The target of one entry `a`, synchronised. */
  lemma {:induction false} ExampleSynchronized(target: Text)
    requires ParseFile(target) == [EntryA([ONE], target)] && target != []
    ensures var t, s := ParseFile(target), ParseFile(SOURCE_TEXT);
            && Missing(t, s) == {B} && B in KeySet(Synchronized(t, s)) && AddedRewritable(t, s)
            && Translations(t) == map[A := [ONE]]
            && Reassemble(Synchronized(t, s)) == target + SECOND
  {
    SourceTextParses();
    var e, s := EntryA([ONE], target), ParseFile(SOURCE_TEXT);
    OneBehindTheOther(e, s[0], s[1]);
    OneTranslation(e);
    hide ParseFile, Synchronized, Missing, KeySet, EntryKeys;
    var added := AddedEntry(s, B);
    assert added == Entry(B, Some(B), [EQUALS], [TWO], None, []);
    EmittedB();
    EmittedTogether(e, added);
  }

  lemma {:induction false} EmittedB()
    ensures var added := Entry(B, Some(B), [EQUALS], [TWO], None, []);
            Emit(added) == SECOND && RewritableItem(added)
  {
    hide UnescapeKey, EscapeNewlines;
    ExampleLines();
    NothingToEscape([TWO]);
  }

  lemma {:induction false} OneBehindTheOther(e: Item, x: Item, y: Item)
    requires e.Entry? && x.Entry? && y.Entry? && e.key == x.key != y.key
    ensures var s := [x, y];
            && y.key in EntryKeys(s) && AddedEntry(s, y.key) == Entry(y.key, y.rawKey, y.separator, y.value, None, [])
            && Missing([e], s) == {y.key} && Synchronized([e], s) == [e, AddedEntry(s, y.key)]
            && y.key in KeySet(Synchronized([e], s))
  {
    var s := [x, y];
    assert s[1..] == [y] && [y][1..] == [] && [e][1..] == [];
    assert EntryKeys([y]) == [y.key] && EntryKeys(s) == [x.key, y.key] && EntryKeys([e]) == [e.key];
    assert KeySet([e]) == {e.key} && KeySet(s) == {x.key, y.key};
    assert Extra([e], s) == {} && Without([], {}) == [];
    assert Without([e], {}) == [e];
    var missing := Missing([e], s);
    assert InsertMissing(s, [e], missing, 0) == [e];
    assert InsertMissing(s, [e], missing, 1) == [e];
    assert InsertionIndex(s, EntryKeys(s), LastIndex(EntryKeys(s), y.key), [e]) == 1;
    assert InsertMissing(s, [e], missing, 2) == [e, AddedEntry(s, y.key)];
    var both := [e, AddedEntry(s, y.key)];
    assert both[1..] == [AddedEntry(s, y.key)];
    assert EntryKeys(both) == [e.key, y.key];
    assert y.key == EntryKeys(both)[1];
  }
}
