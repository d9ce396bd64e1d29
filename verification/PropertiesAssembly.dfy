/** Files put together from kept, rewritten and added items: exactly when such a file reads back
    as what was put together. */
module PropertiesAssembly {
  import opened Texts
  import opened Entries
  import opened PropertiesSyntax
  import opened PropertiesKeys
  import opened PropertiesFile
  import opened PropertiesRoundTrip
  import opened PropertiesWriting

  /** The file ends its last line, and no value is cut off by the end of the file. */
  predicate Terminated(text: Text) {
    var read := UniversalNewlines(text);
    (read == [] || EndsLine(read)) && AllCompleted(ReadLines(read))
  }

  /** A line the writer spells out: it may fail to read back only through its value or a
      dangling raw key. */
  predicate WrittenLine(item: Item) {
    IsRewritten(item) && LineStart(RawKey(item), item.separator) && UnescapeKey(RawKey(item)) == item.key
  }

  predicate RewritableItem(item: Item)
    requires item.Entry?
  {
    Rewritable(RawKey(item), item.separator, item.value)
  }

  /** A line the program spelled out, over an old entry or for a new key. */
  predicate SpelledOut(item: Item) {
    WrittenLine(item) || (item.Entry? && item == NewEntry(item.key, item.value))
  }

  // ------------------------------------------------------------------- one item

  lemma {:induction false} SpelledOutIsOneLine(item: Item)
    requires SpelledOut(item)
    ensures ProperLine(Emit(item)) && EndsLine(Emit(item))
  {
    hide UnescapeKey, SeparatesAt, OpensEntry, SeparatorShape, SeparatorFits, LeadingSpaces, EscapeNewlines, EscapeKey;
    if WrittenLine(item) {
      WrittenHead(RawKey(item), item.separator, EscapeNewlines(item.value), []);
    } else {
      EscapedKeyIsOneLine(item.key);
      var line := EscapeKey(item.key) + [EQUALS] + EscapeNewlines(item.value);
      LacksCons(EscapeKey(item.key), [EQUALS], NEWLINE);
      LacksCons(EscapeKey(item.key) + [EQUALS], EscapeNewlines(item.value), NEWLINE);
      OneLineIsProper(line);
      assert Emit(item) == line + [NEWLINE];
    }
  }

  /** Whatever follows it, a spelled-out line shows what was meant exactly when it reads back. */
  lemma {:induction false} SpelledOutHead(item: Item, rest: seq<Text>)
    requires SpelledOut(item)
    ensures ReadsBack(item) || ViewOf(ParseHead([Emit(item)] + rest).item) != WrittenView(item)
  {
    hide ReadLines, ParseHead, HeadCompleted, EscapeNewlines, UnescapeKey, LeadingSpaces, SeparatesAt, OpensEntry,
      SeparatorShape, SeparatorFits, EscapeKey, ReadsBack;
    if WrittenLine(item) {
      WrittenEntryReadsBack(item);
      WrittenHead(RawKey(item), item.separator, EscapeNewlines(item.value), rest);
    } else {
      NewEntryHead(item.key, item.value, rest);
    }
  }

  lemma {:induction false} NewEntryHead(key: Text, value: Text, rest: seq<Text>)
    ensures ReadsBack(NewEntry(key, value)) || ViewOf(ParseHead([Emit(NewEntry(key, value))] + rest).item)
            != WrittenView(NewEntry(key, value))
  {
    hide ReadLines, ParseHead, HeadCompleted, EscapeNewlines, UnescapeKey, LeadingSpaces, SeparatesAt, OpensEntry,
      SeparatorShape, SeparatorFits, EscapeKey, ReadsBack;
    var item, raw := NewEntry(key, value), EscapeKey(key);
    NewEntryReadsBack(key, value);
    if OpensWithComment(key) {
      CommentKeyHead(key, value, rest);
    } else {
      EscapedKeyOpens(key);
      EscapedKeyIsOneLine(key);
      EscapedKeyIsSealed(key);
      EqualsSeparates();
      LacksCons(raw, [EQUALS], NEWLINE);
      KeyCodec(key);
      SealedIsLineStart(raw);
      WrittenHead(raw, [EQUALS], EscapeNewlines(value), rest);
      WrittenEntryReadsBack(item);
    }
  }

  lemma {:induction false} CommentKeyHead(key: Text, value: Text, rest: seq<Text>)
    requires OpensWithComment(key)
    ensures ParseHead([Emit(NewEntry(key, value))] + rest).item.Comment?
  {
    hide ReadLines, EscapeNewlines, UnescapeKey, Absorb, SplitPropertyLine;
    var raw, written := EscapeKey(key), EscapeNewlines(value);
    var line := raw + [EQUALS] + written;
    assert raw[0] == key[0] && line[0] == key[0];
    assert line[..0] == [];
    LeadingSpacesIs(line, 0);
    EscapedKeyIsOneLine(key);
    LacksCons(raw, [EQUALS], NEWLINE);
    LacksCons(raw + [EQUALS], written, NEWLINE);
    OneLineIsProper(line);
    assert Emit(NewEntry(key, value)) == line + [NEWLINE];
  }

  lemma {:induction false} SealedIsLineStart(raw: Text)
    requires Sealed(raw)
    ensures forall i :: LeadingSpaces(raw) <= i < |raw| ==> !SeparatesAt(raw, i)
    ensures SeparatorFits(raw, [EQUALS])
  {
  }

  // ---------------------------------------------------------------- whole files

  /** A file of kept and spelled-out lines shows what it was meant to show exactly when every
      one of them reads back. */
  lemma {:induction false} AssembledExactly(items: seq<Item>)
    requires forall i :: 0 <= i < |items| ==> ReadsBack(items[i]) || SpelledOut(items[i])
    ensures Views(ParseLines(ReadLines(Reassemble(items)))) == WrittenViews(items)
            <==> forall i :: 0 <= i < |items| ==> ReadsBack(items[i])
  {
    hide ReadLines, ParseHead, Emit, HeadCompleted, ReadsBack, SpelledOut, Views, ViewOf, WrittenView;
    NoLines();
    ViewsOfNothing();
    if items != [] {
      var tail := items[1..];
      assert forall i :: 0 <= i < |tail| ==> tail[i] == items[i + 1];
      AssembledExactly(tail);
      AssembledHead(items[0], Reassemble(tail));
      var read := ReadLines(Emit(items[0]) + Reassemble(tail));
      var h := ParseHead(read);
      ViewsCons(h.item, ParseLines(read[h.used..]));
      ConsEqual(ViewOf(h.item), Views(ParseLines(read[h.used..])), WrittenView(items[0]), WrittenViews(tail));
      assert (forall i :: 0 <= i < |items| ==> ReadsBack(items[i]))
             <==> ReadsBack(items[0]) && (forall i :: 0 <= i < |tail| ==> ReadsBack(tail[i])) by {
        assert forall i :: 0 < i < |items| ==> items[i] == tail[i - 1];
      }
    }
  }

  lemma {:induction false} AssembledHead(item: Item, more: Text)
    requires ReadsBack(item) || SpelledOut(item)
    ensures var read := ReadLines(Emit(item) + more);
            && read != []
            && (if ReadsBack(item) then
                  ViewOf(ParseHead(read).item) == WrittenView(item) && read[ParseHead(read).used..] == ReadLines(more)
                else ViewOf(ParseHead(read).item) != WrittenView(item))
  {
    hide ReadLines, ParseHead, HeadCompleted, SpelledOut, Emit, WrittenView, ViewOf;
    if ReadsBack(item) {
      var lines := ReadLines(Emit(item));
      ReadLinesAppend(Emit(item), more);
      CompletedHeadIsLocal(lines, ReadLines(more));
      assert lines[..|lines|] == lines;
    } else {
      SpelledOutIsOneLine(item);
      SpelledOutHead(item, ReadLines(more));
      ReadLinesCons(Emit(item), more);
    }
  }

  // ------------------------------------------------------- the end of the old file

  /** The item's own text parses to the intended view where nothing follows it. */
  predicate ReadsAtEnd(item: Item) {
    var lines := ReadLines(Emit(item));
    && lines != []
    && ParseHead(lines).used == |lines|
    && ViewOf(ParseHead(lines).item) == WrittenView(item)
  }

  /** An item that the end of its file cut off: its last line has no newline, or its value waits
      for a continuation. */
  predicate CutOff(item: Item) {
    ReadsAtEnd(item) && !ReadsBack(item)
  }

  lemma {:induction false} CutOffEither(item: Item)
    requires CutOff(item)
    ensures var lines := ReadLines(Emit(item)); lines != [] && ParseHead(lines).used == |lines|
    ensures !EndsLine(Emit(item)) || !HeadCompleted(ReadLines(Emit(item)))
  {
    hide ReadLines, ParseHead, HeadCompleted, Emit;
  }

  lemma {:induction false} UnfinishedAbsorbsMore(value: Text, rest: seq<Text>, more: seq<Text>)
    requires !Completed(value, rest) && more != []
    ensures Absorb(value, rest + more).used > |rest|
    decreases |rest|
  {
    hide Chomp, LStrip, Dangling;
    CutIsClosed(value) by { UnfinishedDangles(value, rest); }
    UnfinishedDangles(value, rest);
    var all := rest + more;
    if rest != [] {
      assert all[0] == rest[0] && all[1..] == rest[1..] + more;
      UnfinishedAbsorbsMore(value[..|value| - 1] + LStrip(Chomp(rest[0])), rest[1..], more);
    }
  }

  lemma {:induction false} UnfinishedDangles(value: Text, rest: seq<Text>)
    requires !Completed(value, rest)
    ensures Dangling(value)
  {
  }

  lemma {:induction false} UnfinishedHeadTakesMore(lines: seq<Text>, more: seq<Text>)
    requires lines != [] && more != [] && !HeadCompleted(lines)
    ensures ParseHead(lines + more).used > |lines|
  {
    hide Absorb, Chomp, OpensEntry, SplitPropertyLine, UnescapeKey, Concat, Completed;
    var all := lines + more;
    assert all[0] == lines[0] && all[1..] == lines[1..] + more;
    UnfinishedAbsorbsMore(SplitPropertyLine(Chomp(lines[0])).value.value, lines[1..], more);
  }

  lemma {:induction false} AbsorbsToTheChangedLine(value: Text, rest: seq<Text>, last: Text, other: Text,
        more: seq<Text>)
    requires Absorb(value, rest + [last]).used == |rest| + 1
    ensures Absorb(value, rest + [other] + more).used > |rest|
    decreases |rest|
  {
    hide Chomp, LStrip, Dangling;
    var a, b := rest + [last], rest + [other] + more;
    if rest == [] {
      assert a[0] == last && b[0] == other;
    } else {
      assert a[0] == rest[0] == b[0] && a[1..] == rest[1..] + [last] && b[1..] == rest[1..] + [other] + more;
      AbsorbDangles(value, a);
      CutIsClosed(value);
      AbsorbsToTheChangedLine(value[..|value| - 1] + LStrip(Chomp(rest[0])), rest[1..], last, other, more);
    }
  }

  lemma {:induction false} AbsorbDangles(value: Text, rest: seq<Text>)
    requires Absorb(value, rest).used > 0
    ensures Dangling(value)
  {
  }

  lemma {:induction false} HeadReachesTheChangedLine(front: seq<Text>, last: Text, other: Text, more: seq<Text>)
    requires front + [last] != [] && ParseHead(front + [last]).used == |front| + 1
    ensures ParseHead(front + [other] + more).used > |front|
  {
    hide Absorb, Chomp, OpensEntry, SplitPropertyLine, UnescapeKey, Concat;
    if front != [] {
      var a, b := front + [last], front + [other] + more;
      assert a[0] == front[0] == b[0] && a[1..] == front[1..] + [last] && b[1..] == front[1..] + [other] + more;
      AbsorbsToTheChangedLine(SplitPropertyLine(Chomp(front[0])).value.value, front[1..], last, other, more);
    }
  }

  lemma {:induction false} NoMoreItemsThanLines(lines: seq<Text>)
    ensures |ParseLines(lines)| <= |lines|
    decreases |lines|
  {
    hide ParseHead;
    if lines != [] {
      NoMoreItemsThanLines(lines[ParseHead(lines).used..]);
    }
  }

  lemma {:induction false} SpelledOutLines(items: seq<Item>)
    requires forall i :: 0 <= i < |items| ==> SpelledOut(items[i])
    ensures |ReadLines(Reassemble(items))| == |items|
  {
    hide ReadLines, SpelledOut, Emit;
    if items == [] {
      NoLines();
    } else {
      SpelledOutIsOneLine(items[0]);
      assert forall i :: 0 <= i < |items[1..]| ==> items[1..][i] == items[i + 1];
      SpelledOutLines(items[1..]);
      ReadLinesCons(Emit(items[0]), Reassemble(items[1..]));
    }
  }

  lemma {:induction false} JoinedIsProper(line: Text, more: Text)
    requires OneLine(line) && ProperLine(more)
    ensures ProperLine(line + more)
  {
    if line == [] {
      assert line + more == more;
    } else {
      JoinedIsProper(line[1..], more);
      assert (line + more)[1..] == line[1..] + more;
    }
  }

  /** Text without its final newline joins its last line with the first one behind it. */
  lemma {:induction false} ReadLinesJoin(t: Text, line: Text, more: Text)
    requires t != [] && !EndsLine(t) && ProperLine(line) && EndsLine(line)
    ensures var lines := ReadLines(t);
            && lines != []
            && ReadLines(t + (line + more)) == lines[..|lines| - 1] + [lines[|lines| - 1] + line] + ReadLines(more)
  {
    hide ReadLines, ProperLine;
    var lines := ReadLines(t);
    ReadLinesIsProper(t);
    var n := |lines| - 1;
    var front, last := lines[..n], lines[n];
    ProperPrefix(lines, n);
    assert lines == front + [last] && lines[n..] == [last];
    ConcatAppend(front, [last]);
    assert Concat([last]) == last by { assert [last][1..] == []; }
    ProperLineAt(lines, n);
    LastLineOpen(last, t, Concat(front));
    ChompedLine(last);
    JoinedIsProper(last, line);
    ReadLinesCons(last + line, more);
    ReadLinesInverts(front, (last + line) + more);
    assert t + (line + more) == Concat(front) + ((last + line) + more);
    assert front + ([last + line] + ReadLines(more)) == front + [last + line] + ReadLines(more);
  }

  lemma {:induction false} LastLineOpen(last: Text, t: Text, front: Text)
    requires t == front + last && last != [] && !EndsLine(t)
    ensures !EndsLine(last)
  {
    assert t[|t| - 1] == last[|last| - 1];
  }

  /** Lines spelled out behind an item that was cut off: at least one item is lost. */
  lemma {:induction false} CutOffSwallows(item: Item, rest: seq<Item>)
    requires CutOff(item) && rest != [] && forall i :: 0 <= i < |rest| ==> SpelledOut(rest[i])
    ensures |ParseLines(ReadLines(Emit(item) + Reassemble(rest)))| <= |rest|
  {
    CutOffEither(item);
    SpelledOutLines(rest);
    SpelledOutIsOneLine(rest[0]);
    hide ReadLines, ParseHead, HeadCompleted, SpelledOut, Emit, CutOff, ProperLine;
    if EndsLine(Emit(item)) {
      UnfinishedSwallows(Emit(item), Reassemble(rest));
    } else {
      OpenLineSwallows(Emit(item), Emit(rest[0]), Reassemble(rest[1..]));
    }
  }

  /** A value that waits for its continuation takes at least the next line. */
  lemma {:induction false} UnfinishedSwallows(t: Text, more: Text)
    requires EndsLine(t) && ReadLines(t) != [] && ReadLines(more) != []
    requires ParseHead(ReadLines(t)).used == |ReadLines(t)| && !HeadCompleted(ReadLines(t))
    ensures |ParseLines(ReadLines(t + more))| <= |ReadLines(more)|
  {
    hide ReadLines, ParseHead, HeadCompleted, ParseLines;
    var lines, others := ReadLines(t), ReadLines(more);
    ReadLinesAppend(t, more);
    UnfinishedHeadTakesMore(lines, others);
    FewerItems(lines + others, |lines|);
  }

  /** A last line without its newline takes the line written behind it. */
  lemma {:induction false} OpenLineSwallows(t: Text, line: Text, more: Text)
    requires !EndsLine(t) && ReadLines(t) != [] && ParseHead(ReadLines(t)).used == |ReadLines(t)|
    requires ProperLine(line) && EndsLine(line)
    ensures |ParseLines(ReadLines(t + (line + more)))| <= |ReadLines(line + more)|
  {
    if t == [] { NoLines(); }
    hide ReadLines, ParseHead, ProperLine, ParseLines;
    var lines, later := ReadLines(t), ReadLines(more);
    ReadLinesJoin(t, line, more);
    ReadLinesCons(line, more);
    var n := |lines| - 1;
    assert lines == lines[..n] + [lines[n]];
    HeadReachesTheChangedLine(lines[..n], lines[n], lines[n] + line, later);
    FewerItems(lines[..n] + [lines[n] + line] + later, n);
  }

  lemma {:induction false} FewerItems(lines: seq<Text>, taken: nat)
    requires lines != [] && ParseHead(lines).used > taken
    ensures |ParseLines(lines)| <= |lines| - taken
  {
    hide ParseHead;
    NoMoreItemsThanLines(lines[ParseHead(lines).used..]);
  }

  /** A file that keeps the item its old end cut off reads back exactly when every other item
      reads back and nothing was written behind it. */
  lemma {:induction false} AssembledBehindCutOff(items: seq<Item>, k: nat)
    requires k < |items| && CutOff(items[k])
    requires forall i :: 0 <= i < k ==> ReadsBack(items[i]) || SpelledOut(items[i])
    requires forall i :: k < i < |items| ==> SpelledOut(items[i])
    ensures Views(ParseLines(ReadLines(Reassemble(items)))) == WrittenViews(items)
            <==> k + 1 == |items| && forall i :: 0 <= i < k ==> ReadsBack(items[i])
  {
    hide ReadLines, ParseHead, Emit, HeadCompleted, ReadsBack, SpelledOut, Views, ViewOf, WrittenView, CutOff;
    var tail := items[1..];
    assert forall i :: 0 <= i < |tail| ==> tail[i] == items[i + 1];
    if k == 0 {
      WrittenViewsLength(items);
      if tail == [] {
        EndsTheFile(items[0]);
        assert Reassemble(items) == Emit(items[0]) by { assert Emit(items[0]) + [] == Emit(items[0]); }
        assert items == [items[0]];
      } else {
        CutOffSwallows(items[0], tail);
      }
    } else {
      AssembledBehindCutOff(tail, k - 1);
      AssembledHead(items[0], Reassemble(tail));
      var read := ReadLines(Emit(items[0]) + Reassemble(tail));
      var h := ParseHead(read);
      ViewsCons(h.item, ParseLines(read[h.used..]));
      ConsEqual(ViewOf(h.item), Views(ParseLines(read[h.used..])), WrittenView(items[0]), WrittenViews(tail));
      assert (forall i :: 0 <= i < k ==> ReadsBack(items[i]))
             <==> ReadsBack(items[0]) && (forall i :: 0 <= i < k - 1 ==> ReadsBack(tail[i])) by {
        assert forall i :: 0 < i < |items| ==> items[i] == tail[i - 1];
      }
    }
  }

  lemma {:induction false} WrittenViewsLength(items: seq<Item>)
    ensures |WrittenViews(items)| == |items|
  {
    hide WrittenView;
    if items != [] { WrittenViewsLength(items[1..]); }
  }

  lemma {:induction false} WrittenViewAt(items: seq<Item>, i: nat)
    requires i < |items|
    ensures |WrittenViews(items)| == |items| && WrittenViews(items)[i] == WrittenView(items[i])
  {
    hide WrittenView;
    if i > 0 { WrittenViewAt(items[1..], i - 1); } else if |items| > 1 { WrittenViewAt(items[1..], 0); }
  }

  lemma {:induction false} EndsTheFile(item: Item)
    requires CutOff(item)
    ensures Views(ParseLines(ReadLines(Emit(item)))) == WrittenViews([item])
  {
    hide ReadLines, ParseHead, Emit, ReadsBack, ViewOf, WrittenView;
    var lines := ReadLines(Emit(item));
    assert lines[|lines|..] == [] && [item][1..] == [];
    assert ParseLines(lines) == [ParseHead(lines).item];
    ViewsCons(ParseHead(lines).item, []);
    ViewsOfNothing();
    assert [ParseHead(lines).item] + [] == [ParseHead(lines).item];
  }

  // -------------------------------------------------------------- items of a parse

  lemma {:induction false} StoppedIsCompleted(value: Text, rest: seq<Text>)
    requires Absorb(value, rest).used < |rest|
    ensures Completed(value, rest)
    decreases |rest|
  {
    hide Chomp, LStrip, Dangling;
    if Dangling(value) {
      CutIsClosed(value);
      StoppedIsCompleted(value[..|value| - 1] + LStrip(Chomp(rest[0])), rest[1..]);
    }
  }

  lemma {:induction false} StoppedHeadIsCompleted(lines: seq<Text>)
    requires lines != [] && ParseHead(lines).used < |lines|
    ensures HeadCompleted(lines)
  {
    hide Absorb, Chomp, OpensEntry, SplitPropertyLine, UnescapeKey, Concat, Completed;
    var split := SplitPropertyLine(Chomp(lines[0]));
    if OpensEntry(Chomp(lines[0])) && split.Some? {
      StoppedIsCompleted(split.value.value, lines[1..]);
    }
  }

  /** The last item of a parse reads back at the end of a file, and elsewhere exactly when the file
      ended its last line and cut off no value. */
  lemma {:induction false} LastHeadReads(lines: seq<Text>)
    requires lines != [] && ProperLines(lines) && ParseHead(lines).used == |lines|
    ensures var item := ParseHead(lines).item;
            && ReadsAtEnd(item) && WrittenView(item) == ViewOf(item)
            && (ReadsBack(item) <==> HeadCompleted(lines) && EndsLine(lines[|lines| - 1]))
  {
    hide ReadLines, Chomp, Concat, ParseHead, EscapeNewlines, HeadCompleted, SeparatesAt, OpensEntry, LeadingSpaces,
      IsSpace,
      SeparatorShape, SeparatorFits, UnescapeKey, Emit;
    var h := ParseHead(lines);
    UnchangedHead(lines, []);
    NoLines();
    assert lines[..h.used] == lines && lines + [] == lines && Emit(h.item) + [] == Emit(h.item);
    EntriesAreParsed(lines);
    ParsedIsWritten(h.item);
    var n := |lines| - 1;
    ConcatSnoc(lines[..n], lines[n]);
    assert lines == lines[..n] + [lines[n]];
    ProperLineAt(lines, n);
    EndOfConcat(Concat(lines[..n]), lines[n]);
  }

  lemma {:induction false} ParsedIsWritten(item: Item)
    requires item.Entry? ==> ParsedEntry(item)
    ensures WrittenView(item) == ViewOf(item)
  {
    hide UnescapeKey, SeparatesAt, OpensEntry, SeparatorShape, SeparatorFits, LeadingSpaces, EscapeKey;
    if item.Entry? { NothingToEscape(item.value); }
  }

  lemma {:induction false} ProperLineAt(lines: seq<Text>, n: nat)
    requires ProperLines(lines) && n < |lines|
    ensures lines[n] != []
  {
    if n > 0 { ProperLineAt(lines[1..], n - 1); }
  }

  lemma {:induction false} EndOfConcat(front: Text, last: Text)
    requires last != []
    ensures EndsLine(front + last) <==> EndsLine(last)
  {
    assert (front + last)[|front + last| - 1] == last[|last| - 1];
  }

  /** Every item of a parse reads back, but for a last one that the end of the file cut off. */
  lemma {:induction false} ParsedItemsRead(lines: seq<Text>)
    requires ProperLines(lines)
    ensures var items := ParseLines(lines);
            && (forall i :: 0 <= i < |items| ==> ReadsAtEnd(items[i]) && WrittenView(items[i]) == ViewOf(items[i]))
            && (forall i :: 0 <= i < |items| - 1 ==> ReadsBack(items[i]))
            && (items != [] ==> (ReadsBack(items[|items| - 1]) <==> AllCompleted(lines)
                                                                    && EndsLine(lines[|lines| - 1])))
            && (items == [] <==> lines == [])
    decreases |lines|
  {
    hide ReadLines, ParseHead, Emit, WrittenView, HeadCompleted, ViewOf, ReadsBack, Concat, ReadsAtEnd;
    if lines != [] {
      var h := ParseHead(lines);
      var rest := lines[h.used..];
      ProperPrefix(lines, h.used);
      ParsedItemsRead(rest);
      if rest == [] {
        LastHeadReads(lines);
      } else {
        StoppedHeadIsCompleted(lines);
        KeptHeadReadsBack(lines);
        BackIsAtEnd(h.item);
      }
      assert ParseLines(lines)[1..] == ParseLines(rest);
    }
  }

  lemma {:induction false} BackIsAtEnd(item: Item)
    requires ReadsBack(item)
    ensures ReadsAtEnd(item)
  {
    hide ReadLines, ParseHead, Emit, WrittenView, HeadCompleted, ViewOf;
  }

  // -------------------------------------------------- no carriage return sneaks in

  lemma {:induction false} ReassembledLacks(items: seq<Item>, c: Rune)
    requires forall i :: 0 <= i < |items| ==> Lacks(Emit(items[i]), c)
    ensures Lacks(Reassemble(items), c)
  {
    hide Emit;
    if items != [] {
      assert forall i :: 0 <= i < |items[1..]| ==> items[1..][i] == items[i + 1];
      ReassembledLacks(items[1..], c);
      LacksCons(Emit(items[0]), Reassemble(items[1..]), c);
    }
  }

  /** What the parser guarantees of every item. */
  predicate ParsedItem(item: Item) {
    && Lacks(Emit(item), CARRIAGE_RETURN)
    && (item.Entry? ==> ParsedEntry(item) && Lacks(item.rawKey.value + item.separator, CARRIAGE_RETURN)
                        && Lacks(item.value, CARRIAGE_RETURN))
  }

  lemma {:induction false} ParsedItemsLack(lines: seq<Text>, c: Rune)
    requires ProperLines(lines) && Lacks(Concat(lines), c) && c != EQUALS
    ensures forall i :: 0 <= i < |ParseLines(lines)| ==>
              var item := ParseLines(lines)[i];
              && Lacks(Emit(item), c)
              && (item.Entry? ==> ParsedEntry(item) && Lacks(item.rawKey.value + item.separator, c)
                                  && Lacks(item.value, c))
    decreases |lines|
  {
    hide ParseHead, ParsedEntry, Emit, Concat;
    if lines != [] {
      var h := ParseHead(lines);
      var rest := lines[h.used..];
      ProperPrefix(lines, h.used);
      ConcatAppend(lines[..h.used], rest);
      assert lines == lines[..h.used] + rest;
      LacksCons(Concat(lines[..h.used]), Concat(rest), c);
      ParsedItemsLack(rest, c);
      UnchangedHead(lines, []);
      EntriesAreParsed(lines);
      TextLinesLack(lines, c);
      EntryLacks(lines, c);
    }
  }

  lemma {:induction false} NoConcat()
    ensures Concat([]) == []
  {
  }

  lemma {:induction false} NothingCutOff()
    ensures AllCompleted([])
  {
  }

  lemma {:induction false} LastLineOf(lines: seq<Text>)
    requires lines != [] && ProperLines(lines)
    ensures EndsLine(Concat(lines)) <==> EndsLine(lines[|lines| - 1])
  {
    hide Concat, EndsLine;
    var n := |lines| - 1;
    assert lines == lines[..n] + [lines[n]];
    ConcatSnoc(lines[..n], lines[n]);
    ProperLineAt(lines, n);
    EndOfConcat(Concat(lines[..n]), lines[n]);
  }

  /** What the lines of `text` are, one by one. */
  lemma {:induction false} FileItems(text: Text)
    ensures var items := ParseFile(text);
            && (forall i :: 0 <= i < |items| ==> ParsedItem(items[i]))
            && (forall i :: 0 <= i < |items| - 1 ==> ReadsBack(items[i]))
            && (items == [] ==> Terminated(text))
            && (items != [] ==> if Terminated(text) then ReadsBack(items[|items| - 1]) else CutOff(items[|items| - 1]))
  {
    hide UniversalNewlines, ReadLines, ParseLines, Concat, Emit, ReadsBack, ReadsAtEnd, ParsedEntry, WrittenView,
      ViewOf, AllCompleted;
    var read := UniversalNewlines(text);
    var lines := ReadLines(read);
    ReadLinesIsProper(read);
    ParsedItemsRead(lines);
    ParsedItemsLack(lines, CARRIAGE_RETURN);
    NoConcat();
    if read == [] {
      NoLines();
      NothingCutOff();
    } else {
      LastLineOf(lines);
    }
  }
}
