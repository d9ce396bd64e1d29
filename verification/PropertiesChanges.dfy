/** A parsed file with changed values and appended entries: exactly when reading it again shows
    the changes. */
module PropertiesChanges {
  import opened Texts
  import opened Entries
  import opened PropertiesSyntax
  import opened PropertiesKeys
  import opened PropertiesFile
  import opened PropertiesRoundTrip
  import opened PropertiesWriting
  import opened PropertiesAssembly

  /** An old item stays, or only its value changes. */
  predicate OnlyValue(x: Item, y: Item) {
    x == y || (x.Entry? && y.Entry? && y == x.(value := y.value))
  }

  predicate Appended(item: Item) {
    item.Entry? && item == NewEntry(item.key, item.value)
  }

  /** Values of old entries changed, and new entries behind them. */
  ghost predicate Changes(items: seq<Item>, out: seq<Item>) {
    && |items| <= |out|
    && (forall i :: 0 <= i < |items| ==> OnlyValue(items[i], out[i]))
    && (forall i :: |items| <= i < |out| ==> Appended(out[i]))
  }

  /** The new value of an old item can be written on its line. */
  predicate ChangeFits(x: Item, y: Item) {
    x.Entry? && y.Entry? ==> EditSurvives(x, y.value)
  }

  predicate AppendFits(item: Item) {
    item.Entry? ==> NewEntryFits(item.key, item.value) && Lacks(item.value, CARRIAGE_RETURN)
  }

  /** Every changed value fits behind its raw key and separator, every new entry fits, and nothing is
      written behind a last line that the end of the old file cut off and that stays as it is. */
  ghost predicate WritesBack(text: Text, out: seq<Item>) {
    var items := ParseFile(text);
    && |items| <= |out|
    && (forall i :: 0 <= i < |items| ==> ChangeFits(items[i], out[i]))
    && (forall i :: |items| <= i < |out| ==> AppendFits(out[i]))
    && (|out| == |items| || Terminated(text) || (items != [] && out[|items| - 1] != items[|items| - 1]))
  }

  // ------------------------------------------------------------------ one item

  lemma {:induction false} ChangedItem(x: Item, y: Item)
    requires ParsedItem(x) && OnlyValue(x, y) && x != y
    ensures SpelledOut(y)
    ensures Lacks(y.value, CARRIAGE_RETURN) ==> Lacks(Emit(y), CARRIAGE_RETURN)
    ensures ChangeFits(x, y) <==> ReadsBack(y) && Lacks(y.value, CARRIAGE_RETURN)
  {
    hide Emit, LineStart, Rewritable, ReadsBack, UnescapeKey;
    ChangedIsWritten(x, y);
    WrittenEntryReadsBack(y);
    if Lacks(y.value, CARRIAGE_RETURN) { ChangedLacks(x, y); }
  }

  lemma {:induction false} ChangedIsWritten(x: Item, y: Item)
    requires ParsedItem(x) && OnlyValue(x, y) && x != y
    ensures WrittenLine(y) && RawKey(y) == x.rawKey.value && y.separator == x.separator && y.value != x.value
  {
    hide Emit, OpensEntry, SeparatesAt, SeparatorShape, SeparatorFits, LeadingSpaces, UnescapeKey;
  }

  lemma {:induction false} ChangedLacks(x: Item, y: Item)
    requires ParsedItem(x) && OnlyValue(x, y) && x != y && Lacks(y.value, CARRIAGE_RETURN)
    ensures Lacks(Emit(y), CARRIAGE_RETURN)
  {
    hide OpensEntry, SeparatesAt, SeparatorShape, SeparatorFits, LeadingSpaces, UnescapeKey, Replace;
    ReplaceKeeps(y.value, NEWLINE, NEWLINE_ESCAPE, CARRIAGE_RETURN);
    LacksCons(x.rawKey.value + x.separator, EscapeNewlines(y.value), CARRIAGE_RETURN);
    LacksCons(x.rawKey.value + x.separator + EscapeNewlines(y.value), [NEWLINE], CARRIAGE_RETURN);
  }

  lemma {:induction false} UnchangedFits(x: Item)
    requires ParsedItem(x)
    ensures ChangeFits(x, x)
  {
  }

  lemma {:induction false} AppendedItem(item: Item)
    requires Appended(item)
    ensures SpelledOut(item)
    ensures Lacks(item.value, CARRIAGE_RETURN) ==> Lacks(Emit(item), CARRIAGE_RETURN)
    ensures AppendFits(item) <==> ReadsBack(item) && Lacks(item.value, CARRIAGE_RETURN)
  {
    hide EscapeKey, ReadsBack, NewEntryFits, Replace;
    NewEntryReadsBack(item.key, item.value);
    if Lacks(item.value, CARRIAGE_RETURN) {
      EscapedKeyIsOneLine(item.key);
      ReplaceKeeps(item.value, NEWLINE, NEWLINE_ESCAPE, CARRIAGE_RETURN);
      LacksCons(EscapeKey(item.key), [EQUALS], CARRIAGE_RETURN);
      LacksCons(EscapeKey(item.key) + [EQUALS], EscapeNewlines(item.value), CARRIAGE_RETURN);
      LacksCons(EscapeKey(item.key) + [EQUALS] + EscapeNewlines(item.value), [NEWLINE], CARRIAGE_RETURN);
    }
  }

  // -------------------------------------------------------------- the main result

  /** Reading the changed file again shows exactly the changes, if and only if they all fit. */
  lemma {:induction false} ChangedFileReadsBack(text: Text, out: seq<Item>)
    requires Changes(ParseFile(text), out)
    ensures Views(ParseFile(Reassemble(out))) == WrittenViews(out) <==> WritesBack(text, out)
  {
    hide ParseFile, ParsedItem, ReadsBack, SpelledOut, CutOff, Emit, Views, WrittenViews, Reassemble, Terminated,
      OnlyValue, Appended, ChangeFits, AppendFits;
    FileItems(text);
    if i :| 0 <= i < |out| && BringsReturn(ParseFile(text), out, i) {
      ReturnIsLost(ParseFile(text), out, i, Reassemble(out));
      ReturnDoesNotFit(text, out, i);
    } else {
      ChangesLackReturns(ParseFile(text), out);
      FittingChanges(text, out);
    }
  }

  /** The value of item `i` is new and holds a carriage return. */
  predicate BringsReturn(items: seq<Item>, out: seq<Item>, i: nat)
    requires i < |out|
  {
    out[i].Entry? && (i >= |items| || items[i] != out[i]) && !Lacks(out[i].value, CARRIAGE_RETURN)
  }

  lemma {:induction false} ReturnDoesNotFit(text: Text, out: seq<Item>, i: nat)
    requires Changes(ParseFile(text), out) && i < |out| && BringsReturn(ParseFile(text), out, i)
    requires forall j :: 0 <= j < |ParseFile(text)| ==> ParsedItem(ParseFile(text)[j])
    ensures !WritesBack(text, out)
  {
    hide ParseFile, ParsedItem, ReadsBack, SpelledOut, Emit, Terminated, ChangeFits, AppendFits;
    var items := ParseFile(text);
    if i < |items| { ChangedItem(items[i], out[i]); } else { AppendedItem(out[i]); }
  }

  lemma {:induction false} ReturnIsLost(items: seq<Item>, out: seq<Item>, i: nat, text: Text)
    requires i < |out| && BringsReturn(items, out, i)
    ensures Views(ParseFile(text)) != WrittenViews(out)
  {
    hide UniversalNewlines, ReadLines, ParseLines, Concat, Views, WrittenViews, Replace;
    var read, again := UniversalNewlines(text), ParseFile(text);
    ReadLinesIsProper(read);
    TextLinesLack(ReadLines(read), CARRIAGE_RETURN);
    ParsedValuesLack(ReadLines(read), CARRIAGE_RETURN);
    ReplaceKeeps(out[i].value, NEWLINE, NEWLINE_ESCAPE, CARRIAGE_RETURN);
    assert !Lacks(EscapeNewlines(out[i].value), CARRIAGE_RETURN);
    WrittenViewAt(out, i);
    if |again| > i { ViewsAt(again, i); }
  }

  lemma {:induction false} ChangesLackReturns(items: seq<Item>, out: seq<Item>)
    requires Changes(items, out) && forall i :: 0 <= i < |items| ==> ParsedItem(items[i])
    requires forall i: nat :: i < |out| ==> !BringsReturn(items, out, i)
    ensures UniversalNewlines(Reassemble(out)) == Reassemble(out)
  {
    hide ParseFile, ReadsBack, SpelledOut, Emit, ParsedEntry, Reassemble, UniversalNewlines, ChangeFits, AppendFits,
      Lacks;
    forall i: nat | i < |out| ensures Lacks(Emit(out[i]), CARRIAGE_RETURN) {
      assert !BringsReturn(items, out, i);
      if i >= |items| {
        AppendedItem(out[i]);
      } else if items[i] != out[i] {
        ChangedItem(items[i], out[i]);
      }
    }
    ReassembledLacks(out, CARRIAGE_RETURN);
    NewlinesAreUniversal(Reassemble(out));
  }

  /** Without carriage returns, the changes fit item by item exactly when the items read back. */
  lemma {:induction false} FittingChanges(text: Text, out: seq<Item>)
    requires Changes(ParseFile(text), out) && UniversalNewlines(Reassemble(out)) == Reassemble(out)
    requires forall i: nat :: i < |out| ==> !BringsReturn(ParseFile(text), out, i)
    ensures Views(ParseFile(Reassemble(out))) == WrittenViews(out) <==> WritesBack(text, out)
  {
    hide ParsedItem, ReadsBack, SpelledOut, CutOff, Emit, Views, WrittenViews, Reassemble, Terminated, OnlyValue,
      Appended, ChangeFits, AppendFits,
      ParseLines, ReadLines, UniversalNewlines, Lacks, ItemFits, BringsReturn;
    var items := ParseFile(text);
    FileItems(text);
    forall i: nat | i < |out| ensures ItemFits(items, out, i) { FittingItem(items, out, i); }
    hide ParseFile;
    if items != [] && !Terminated(text) && out[|items| - 1] == items[|items| - 1] {
      FitsBeforeCutOff(items, out);
      assert WritesBack(text, out) <==> |out| == |items| && forall i :: 0 <= i < |items| ==>
             ChangeFits(items[i], out[i]);
    } else {
      FitsThroughout(items, out);
    }
  }

  lemma {:induction false} FitsBeforeCutOff(items: seq<Item>, out: seq<Item>)
    requires 0 < |items| <= |out| && forall i: nat :: i < |out| ==> ItemFits(items, out, i)
    requires (forall i :: 0 <= i < |items| - 1 ==> ReadsBack(items[i]))
    requires CutOff(items[|items| - 1]) && out[|items| - 1] == items[|items| - 1]
    ensures Views(ParseLines(ReadLines(Reassemble(out)))) == WrittenViews(out)
            <==> |out| == |items| && forall i :: 0 <= i < |items| ==> ChangeFits(items[i], out[i])
  {
    hide ReadsBack, SpelledOut, CutOff, Views, WrittenViews, Reassemble, ChangeFits, AppendFits, ParseLines, ReadLines;
    var n := |items| - 1;
    forall i: nat | i < |out|
      ensures i < n ==> (ReadsBack(out[i]) || SpelledOut(out[i]))
                        && (ReadsBack(out[i]) <==> ChangeFits(items[i], out[i]))
      ensures i > n ==> SpelledOut(out[i])
      ensures i == n ==> ChangeFits(items[i], out[i])
    {
      assert ItemFits(items, out, i);
    }
    AssembledBehindCutOff(out, n);
  }

  lemma {:induction false} FitsThroughout(items: seq<Item>, out: seq<Item>)
    requires |items| <= |out| && forall i: nat :: i < |out| ==> ItemFits(items, out, i)
    requires forall i :: 0 <= i < |items| && items[i] == out[i] ==> ReadsBack(items[i])
    ensures Views(ParseLines(ReadLines(Reassemble(out)))) == WrittenViews(out)
            <==> (forall i :: 0 <= i < |items| ==> ChangeFits(items[i], out[i]))
                 && forall i :: |items| <= i < |out| ==> AppendFits(out[i])
  {
    hide ReadsBack, SpelledOut, Views, WrittenViews, Reassemble, ChangeFits, AppendFits, ParseLines, ReadLines;
    forall i: nat | i < |out|
      ensures ReadsBack(out[i]) || SpelledOut(out[i])
      ensures i < |items| ==> (ReadsBack(out[i]) <==> ChangeFits(items[i], out[i]))
      ensures i >= |items| ==> (ReadsBack(out[i]) <==> AppendFits(out[i]))
    {
      assert ItemFits(items, out, i);
    }
    AssembledExactly(out);
  }

  /** Why item `i` reads back. */
  predicate ItemFits(items: seq<Item>, out: seq<Item>, i: nat)
    requires i < |out|
  {
    if i >= |items| then SpelledOut(out[i]) && (ReadsBack(out[i]) <==> AppendFits(out[i]))
    else if items[i] != out[i] then SpelledOut(out[i]) && (ReadsBack(out[i]) <==> ChangeFits(items[i], out[i]))
    else ChangeFits(items[i], out[i])
  }

  lemma {:induction false} FittingItem(items: seq<Item>, out: seq<Item>, i: nat)
    requires Changes(items, out) && i < |out| && !BringsReturn(items, out, i)
    requires i < |items| ==> ParsedItem(items[i])
    ensures ItemFits(items, out, i)
  {
    hide ReadsBack, SpelledOut, Emit, ParsedItem, ChangeFits, AppendFits, Lacks;
    if i >= |items| {
      AppendedItem(out[i]);
    } else if items[i] != out[i] {
      ChangedItem(items[i], out[i]);
    } else {
      UnchangedFits(items[i]);
    }
  }

  // ------------------------------------------------------ entries of the file read again

  predicate RereadItem(x: Item, y: Item) {
    x.Entry? == y.Entry? && (x.Entry? ==> y.key == x.key && y.value == EscapeNewlines(x.value))
  }

  /** The file read back: the same entries, with newlines spelled out in their values. */
  ghost predicate Reread(lines: seq<Item>, again: seq<Item>) {
    |lines| == |again| && forall i :: 0 <= i < |lines| ==> RereadItem(lines[i], again[i])
  }

  lemma {:induction false} ShownIsReread(out: seq<Item>, again: seq<Item>)
    requires Views(again) == WrittenViews(out)
    ensures Reread(out, again)
  {
    hide Views, WrittenViews, ViewOf, WrittenView, RereadItem;
    WrittenViewsLength(out);
    forall i | 0 <= i < |out| ensures RereadItem(out[i], again[i]) {
      ViewsAt(again, i);
      WrittenViewAt(out, i);
      ShownItem(out[i], again[i]);
    }
  }

  lemma {:induction false} ShownItem(x: Item, y: Item)
    requires ViewOf(y) == WrittenView(x)
    ensures RereadItem(x, y)
  {
  }

  lemma {:induction false} RereadKeys(lines: seq<Item>, again: seq<Item>)
    requires Reread(lines, again)
    ensures SameKeys(lines, again)
  {
    hide EscapeNewlines;
    assert forall i :: 0 <= i < |lines| ==> RereadItem(lines[i], again[i]);
  }

  /** The dictionary of the file read back. */
  lemma {:induction false} RereadTranslations(lines: seq<Item>, again: seq<Item>, key: Text)
    requires Reread(lines, again)
    ensures HasKey(lines, key) <==> HasKey(again, key)
    ensures key in Translations(lines) <==> key in Translations(again)
    ensures key in Translations(lines) ==> Translations(again)[key] == EscapeNewlines(Translations(lines)[key])
  {
    hide Translations, EscapeNewlines;
    TranslationsKeys(lines, key);
    TranslationsKeys(again, key);
    RereadKeys(lines, again);
    SameKeysSameLast(lines, again, key);
    if HasKey(lines, key) {
      var i := LastEntry(lines, key);
      assert RereadItem(lines[i], again[i]);
    }
  }
}
