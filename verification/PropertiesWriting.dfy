/** Files assembled from kept, rewritten and new entries: when reading them back shows
    what was meant to be written. */
module PropertiesWriting {
  import opened Texts
  import opened Entries
  import opened PropertiesSyntax
  import opened PropertiesKeys
  import opened PropertiesFile
  import opened PropertiesRoundTrip

  // ------------------------------------------------ entries that end on their own

  /** The value is complete before the end of the file is reached. */
  predicate Completed(value: Text, rest: seq<Text>)
    decreases |rest|
  {
    if !Dangling(value) then true
    else
      CutIsClosed(value);
      rest != [] && Completed(value[..|value| - 1] + LStrip(Chomp(rest[0])), rest[1..])
  }

  /** The first item does not depend on what follows the lines it takes. */
  predicate HeadCompleted(lines: seq<Text>)
    requires lines != []
  {
    var line := Chomp(lines[0]);
    var split := SplitPropertyLine(line);
    OpensEntry(line) && split.Some? ==> Completed(split.value.value, lines[1..])
  }

  /** No entry of the file is cut off by its end. */
  predicate AllCompleted(lines: seq<Text>)
    decreases |lines|
  {
    lines != [] ==> HeadCompleted(lines) && AllCompleted(lines[ParseHead(lines).used..])
  }

  lemma {:induction false} CompletedIsLocal(value: Text, rest: seq<Text>, more: seq<Text>)
    requires Completed(value, rest)
    ensures Absorb(value, rest[..Absorb(value, rest).used] + more) == Absorb(value, rest)
    ensures Completed(value, rest[..Absorb(value, rest).used] + more)
    decreases |rest|
  {
    hide Chomp, LStrip, Dangling;
    if Dangling(value) {
      CutIsClosed(value);
      var joined := value[..|value| - 1] + LStrip(Chomp(rest[0]));
      var a := Absorb(joined, rest[1..]);
      CompletedIsLocal(joined, rest[1..], more);
      var local := rest[..a.used + 1] + more;
      assert local[0] == rest[0] && local[1..] == rest[1..][..a.used] + more;
    }
  }

  lemma {:induction false} CompletedHeadIsLocal(lines: seq<Text>, more: seq<Text>)
    requires lines != [] && HeadCompleted(lines)
    ensures var used := ParseHead(lines).used;
            && ParseHead(lines[..used] + more) == ParseHead(lines)
            && HeadCompleted(lines[..used] + more)
  {
    hide Absorb, Chomp, OpensEntry, SplitPropertyLine, UnescapeKey, Concat, Completed;
    var used := ParseHead(lines).used;
    var local := lines[..used] + more;
    assert local[0] == lines[0];
    assert local[1..] == lines[1..][..used - 1] + more;
    var split := SplitPropertyLine(Chomp(lines[0]));
    if OpensEntry(Chomp(lines[0])) && split.Some? {
      CompletedIsLocal(split.value.value, lines[1..], more);
      assert local[..used] == lines[..used];
    }
  }

  // ------------------------------------------------------- items that read back

  /** What writing the item and reading it back is meant to show. */
  function WrittenView(item: Item): View {
    match item
    case Comment(content) => CommentView(content)
    case Entry(key, rawKey, separator, value, _, _) =>
      var raw := if rawKey.Some? && UnescapeKey(rawKey.value) == key then rawKey.value else EscapeKey(key);
      EntryView(key, Some(raw), separator, EscapeNewlines(value))
  }

  function WrittenViews(items: seq<Item>): seq<View> {
    if items == [] then [] else [WrittenView(items[0])] + WrittenViews(items[1..])
  }

  /** The item's own text is whole lines that parse, wherever they stand, to the intended view. */
  predicate ReadsBack(item: Item) {
    var lines := ReadLines(Emit(item));
    && EndsLine(Emit(item))
    && lines != []
    && HeadCompleted(lines)
    && ParseHead(lines).used == |lines|
    && ViewOf(ParseHead(lines).item) == WrittenView(item)
  }

  /** A file put together from items that read back shows exactly those items. */
  lemma {:induction false} AssembledFileReadsBack(items: seq<Item>)
    requires forall i :: 0 <= i < |items| ==> ReadsBack(items[i])
    ensures Views(ParseLines(ReadLines(Reassemble(items)))) == WrittenViews(items)
  {
    hide ReadLines, ParseHead, Emit, WrittenView, HeadCompleted, ViewOf, Views;
    NoLines();
    ViewsOfNothing();
    if items != [] {
      AssembledFileReadsBack(items[1..]);
      var lines, more := ReadLines(Emit(items[0])), ReadLines(Reassemble(items[1..]));
      assert ReadsBack(items[0]);
      ReadLinesAppend(Emit(items[0]), Reassemble(items[1..]));
      CompletedHeadIsLocal(lines, more);
      assert lines[..|lines|] == lines;
      var all := lines + more;
      assert all[|lines|..] == more;
      ViewsCons(ParseHead(all).item, ParseLines(more));
    }
  }

  lemma {:induction false} ViewsOfNothing()
    ensures Views([]) == []
  {
  }

  lemma {:induction false} ReadLinesAppend(t: Text, more: Text)
    requires EndsLine(t)
    ensures ReadLines(t + more) == ReadLines(t) + ReadLines(more)
  {
    hide ReadLines;
    ReadLinesIsProper(t);
    LastLineEnds(ReadLines(t));
    ReadLinesInverts(ReadLines(t), more);
  }

  lemma {:induction false} LastLineEnds(lines: seq<Text>)
    requires ProperLines(lines) && EndsLine(Concat(lines))
    ensures lines != [] && EndsLine(lines[|lines| - 1])
  {
    if |lines| > 1 {
      var tail := Concat(lines[1..]);
      assert tail != [] by {
        assert lines[1..][0] != [];
      }
      assert Concat(lines)[|Concat(lines)| - 1] == tail[|tail| - 1];
      LastLineEnds(lines[1..]);
    } else if |lines| == 1 {
      assert Concat(lines) == lines[0];
    }
  }

  // ------------------------------------------------------------- kept entries

  /** Entries of a file that ends its last line and cuts off no value read back unchanged. */
  lemma {:induction false} KeptItemsReadBack(lines: seq<Text>)
    requires ProperLines(lines) && AllCompleted(lines)
    requires lines != [] ==> EndsLine(lines[|lines| - 1])
    ensures forall i :: 0 <= i < |ParseLines(lines)| ==>
              ReadsBack(ParseLines(lines)[i]) && WrittenView(ParseLines(lines)[i]) == ViewOf(ParseLines(lines)[i])
    decreases |lines|
  {
    hide ReadLines, ParseHead, Emit, WrittenView, HeadCompleted, ViewOf, ReadsBack, Concat;
    if lines != [] {
      var h := ParseHead(lines);
      var rest := lines[h.used..];
      ProperPrefix(lines, h.used);
      KeptItemsReadBack(rest);
      KeptHeadReadsBack(lines);
    }
  }

  lemma {:induction false} KeptHeadReadsBack(lines: seq<Text>)
    requires lines != [] && ProperLines(lines) && HeadCompleted(lines)
    requires EndsLine(lines[ParseHead(lines).used - 1])
    ensures var item := ParseHead(lines).item; ReadsBack(item) && WrittenView(item) == ViewOf(item)
  {
    hide ReadLines, Chomp, Emit, Concat, ParseHead, EscapeNewlines, HeadCompleted, SeparatesAt, OpensEntry,
      LeadingSpaces, IsSpace, SeparatorShape, SeparatorFits, UnescapeKey;
    var h := ParseHead(lines);
    var chunk := lines[..h.used];
    UnchangedHead(lines, []);
    NoLines();
    assert Emit(h.item) + [] == Emit(h.item) && chunk + [] == chunk;
    CompletedHeadIsLocal(lines, []);
    EntriesAreParsed(lines);
    if h.item.Entry? {
      NothingToEscape(h.item.value);
    }
    ConcatSnoc(chunk[..h.used - 1], chunk[h.used - 1]);
    assert chunk == chunk[..h.used - 1] + [chunk[h.used - 1]];
  }

  // ------------------------------------------------------------ written entries

  /** The raw spelling under which an entry is written. */
  function RawKey(item: Item): Text
    requires item.Entry?
  {
    if item.rawKey.Some? && UnescapeKey(item.rawKey.value) == item.key then item.rawKey.value else EscapeKey(item.key)
  }

  predicate IsRewritten(item: Item) {
    item.Entry? && !(Some(item.value) == item.parsedValue && item.entryText != [])
  }

  /** Raw key and separator can open an entry line. */
  predicate LineStart(rawKey: Text, separator: Text) {
    && (forall i :: LeadingSpaces(rawKey) <= i < |rawKey| ==> !SeparatesAt(rawKey, i))
    && SeparatorShape(separator) && SeparatorFits(rawKey, separator)
    && OpensEntry(rawKey + separator) && OneLine(rawKey + separator)
  }

  /** An entry the writer spells out reads back exactly when its line start and value fit. */
  lemma {:induction false} WrittenEntryReadsBack(item: Item)
    requires IsRewritten(item) && LineStart(RawKey(item), item.separator)
    ensures ReadsBack(item) <==>
              UnescapeKey(RawKey(item)) == item.key && Rewritable(RawKey(item), item.separator, item.value)
  {
    hide SeparatesAt, OpensEntry, SeparatorShape, SeparatorFits, ValueFits, LeadingSpaces, UnescapeKey,
      EscapeNewlines, ParseHead, ReadLines, Chomp, EscapeKey;
    var raw, sep, written := RawKey(item), item.separator, EscapeNewlines(item.value);
    var line := raw + sep + written;
    WrittenHead(raw, sep, written, []);
    ReadLinesCons(line + [NEWLINE], []);
    NoLines();
    assert line + [NEWLINE] + [] == line + [NEWLINE];
    assert [line + [NEWLINE]] + [] == [line + [NEWLINE]];
    OneLineIsProper(line);
    if !Dangling(raw) && ValueFits(sep, written) {
      RewrittenSplits(raw, sep, written);
    }
  }

  predicate OpensWithComment(key: Text) {
    key != [] && (key[0] == HASH || key[0] == EXCLAMATION)
  }

  lemma {:induction false} EscapedKeyOpens(key: Text)
    ensures OpensEntry(EscapeKey(key) + [EQUALS]) <==> !OpensWithComment(key)
  {
    var raw := EscapeKey(key);
    var line := raw + [EQUALS];
    if key == [] {
      assert line == [EQUALS];
    } else {
      assert raw[0] == EscapeRune(key[0])[0];
      assert line[0] == raw[0];
    }
    assert !IsSpace(line[0]);
    assert line[..0] == [];
    LeadingSpacesIs(line, 0);
  }

  lemma {:induction false} EscapedKeyIsOneLine(key: Text)
    ensures Lacks(EscapeKey(key), NEWLINE) && Lacks(EscapeKey(key), CARRIAGE_RETURN)
  {
    if key != [] {
      EscapedKeyIsOneLine(key[1..]);
      LacksCons(EscapeRune(key[0]), EscapeKey(key[1..]), NEWLINE);
      LacksCons(EscapeRune(key[0]), EscapeKey(key[1..]), CARRIAGE_RETURN);
    }
  }

  predicate NewEntryFits(key: Text, value: Text) {
    var written := EscapeNewlines(value);
    && !OpensWithComment(key)
    && PairFree(key)
    && (written != [] ==> !IsSpace(written[0]))
    && !Dangling(written)
  }

  /** A new entry reads back exactly when its key opens no comment and holds no surrogate pair,
      and its value neither starts with whitespace nor ends in an odd run of backslashes. */
  lemma {:induction false} NewEntryReadsBack(key: Text, value: Text)
    ensures ReadsBack(NewEntry(key, value)) <==> NewEntryFits(key, value)
  {
    hide SeparatesAt, OpensEntry, SeparatorShape, IsSpace, UnescapeKey, EscapeNewlines, ParseHead, ReadLines, Chomp,
      EscapeKey, LeadingSpaces, Emit;
    var item, raw := NewEntry(key, value), EscapeKey(key);
    EscapedKeyOpens(key);
    EscapedKeyIsOneLine(key);
    EscapedKeyIsSealed(key);
    EqualsSeparates();
    KeyCodec(key);
    LacksCons(raw, [EQUALS], NEWLINE);
    if OpensWithComment(key) {
      CommentKeyIsLost(key, value);
    } else {
      WrittenEntryReadsBack(item);
    }
  }

  /** A key that starts with `#` or `!` is written unescaped and comes back as a comment. */
  lemma {:induction false} CommentKeyIsLost(key: Text, value: Text)
    requires OpensWithComment(key)
    ensures !ReadsBack(NewEntry(key, value))
    ensures ParseLines(ReadLines(Emit(NewEntry(key, value)))) == [Comment(Emit(NewEntry(key, value)))]
  {
    hide ReadLines, EscapeNewlines, UnescapeKey, Absorb, SplitPropertyLine;
    var raw, written := EscapeKey(key), EscapeNewlines(value);
    var line := raw + [EQUALS] + written;
    assert raw[0] == key[0] && line[0] == key[0];
    assert line[..0] == [];
    LeadingSpacesIs(line, 0);
    EscapedKeyIsOneLine(key);
    LacksCons(raw, [EQUALS], NEWLINE);
    LacksCons(raw + [EQUALS], written, NEWLINE);
    OneLineIsProper(line);
    ReadLinesCons(line + [NEWLINE], []);
    NoLines();
    assert line + [NEWLINE] + [] == line + [NEWLINE];
    assert Emit(NewEntry(key, value)) == line + [NEWLINE];
  }
}
