/** Reassembling a parsed file gives it back, and edited values are read back exactly
    when each edit respects the grammar of its line. */
module PropertiesRoundTrip {
  import opened Texts
  import opened PropertiesSyntax
  import opened PropertiesKeys
  import opened PropertiesFile

  // ---------------------------------------------------------------------- lines

  /** No newline except, possibly, as the last code point. */
  predicate ProperLine(line: Text) {
    line != [] && (|line| > 1 ==> line[0] != NEWLINE && ProperLine(line[1..]))
  }

  /** Lines as `readlines()` produces them: only the last may lack its newline. */
  predicate ProperLines(lines: seq<Text>) {
    lines != [] ==>
      && ProperLine(lines[0])
      && (|lines| > 1 ==> EndsLine(lines[0]))
      && ProperLines(lines[1..])
  }

  lemma {:induction false} ReadLinesIsProper(t: Text)
    ensures ProperLines(ReadLines(t))
    ensures Concat(ReadLines(t)) == t
  {
    if t != [] {
      ReadLinesIsProper(t[1..]);
      var c, lines := t[0], ReadLines(t[1..]);
      var more := PrependToLines(c, lines);
      if c == NEWLINE || lines == [] {
        assert more[1..] == lines;
      } else {
        assert more[0][1..] == lines[0] && more[1..] == lines[1..];
        assert ([c] + lines[0]) + Concat(lines[1..]) == [c] + (lines[0] + Concat(lines[1..]));
      }
    }
  }

  lemma {:induction false} ReadLinesCons(line: Text, more: Text)
    requires ProperLine(line)
    requires more == [] || EndsLine(line)
    ensures ReadLines(line + more) == [line] + ReadLines(more)
  {
    if |line| == 1 {
      assert (line + more)[1..] == more;
      assert [line[0]] == line;
    } else {
      ReadLinesCons(line[1..], more);
      assert (line + more)[1..] == line[1..] + more;
      assert [line[0]] + line[1..] == line;
    }
  }

  lemma {:induction false} ReadLinesInverts(lines: seq<Text>, more: Text)
    requires ProperLines(lines)
    requires more == [] || lines == [] || EndsLine(lines[|lines| - 1])
    ensures ReadLines(Concat(lines) + more) == lines + ReadLines(more)
  {
    hide ReadLines;
    if lines == [] {
      assert Concat(lines) + more == more;
    } else {
      var head, tail := lines[0], lines[1..];
      assert Concat(lines) == head + Concat(tail);
      assert tail != [] ==> tail[|tail| - 1] == lines[|lines| - 1];
      hide EndsLine;
      ReadLinesInverts(tail, more);
      ReadLinesCons(head, Concat(tail) + more);
      hide Concat;
      assert Concat(lines) + more == head + (Concat(tail) + more);
      assert [head] + (tail + ReadLines(more)) == lines + ReadLines(more);
    }
  }

  // ------------------------------------------------------- locality of parsing

  /** Continuation that stopped before the end of the file does not depend on what follows. */
  lemma {:induction false} AbsorbIsLocal(value: Text, rest: seq<Text>, more: seq<Text>)
    requires Absorb(value, rest).used < |rest|
    ensures Absorb(value, rest[..Absorb(value, rest).used] + more) == Absorb(value, rest)
    decreases |rest|
  {
    hide Chomp, LStrip, Dangling;
    if Dangling(value) {
      CutIsClosed(value);
      var joined := value[..|value| - 1] + LStrip(Chomp(rest[0]));
      var a := Absorb(joined, rest[1..]);
      AbsorbIsLocal(joined, rest[1..], more);
      var local := rest[..a.used + 1] + more;
      assert local[0] == rest[0] && local[1..] == rest[1..][..a.used] + more;
    }
  }

  /** An entry that did not run into the end of the file reads the same before any other lines. */
  lemma {:induction false} HeadIsLocal(lines: seq<Text>, more: seq<Text>)
    requires lines != [] && ParseHead(lines).used < |lines|
    ensures ParseHead(lines[..ParseHead(lines).used] + more) == ParseHead(lines)
  {
    hide Absorb, Chomp, OpensEntry, SplitPropertyLine, UnescapeKey, Concat;
    var used := ParseHead(lines).used;
    var local := lines[..used] + more;
    assert local[0] == lines[0];
    assert local[1..] == lines[1..][..used - 1] + more;
    var split := SplitPropertyLine(Chomp(lines[0]));
    if OpensEntry(Chomp(lines[0])) && split.Some? {
      AbsorbIsLocal(split.value.value, lines[1..], more);
      assert local[..used] == lines[..used];
    }
  }

  // --------------------------------------------------- the shape of parsed items

  /** Text without a newline, as every part of a chomped line is. */
  predicate OneLine(t: Text) {
    Lacks(t, NEWLINE)
  }

  /** What the parser guarantees of every entry it returns. */
  predicate ParsedEntry(item: Item) {
    && item.Entry?
    && item.rawKey.Some? && UnescapeKey(item.rawKey.value) == item.key
    && (forall i :: LeadingSpaces(item.rawKey.value) <= i < |item.rawKey.value| ==> !SeparatesAt(item.rawKey.value, i))
    && SeparatorShape(item.separator)
    && SeparatorFits(item.rawKey.value, item.separator)
    && OpensEntry(item.rawKey.value + item.separator)
    && OneLine(item.rawKey.value + item.separator)
    && item.parsedValue == Some(item.value) && OneLine(item.value)
    && StartsSolid(item.value) && !Dangling(item.value)
    && item.entryText != []
  }

  predicate StartsSolid(value: Text) {
    value != [] ==> !IsSpace(value[0])
  }

  lemma {:induction false} AbsorbedStartsSolid(value: Text, rest: seq<Text>)
    requires StartsSolid(value)
    ensures StartsSolid(Absorb(value, rest).value)
    decreases |rest|
  {
    hide Chomp, Dangling, IsSpace;
    if Dangling(value) {
      CutIsClosed(value);
      if rest != [] {
        AbsorbedStartsSolid(value[..|value| - 1] + LStrip(Chomp(rest[0])), rest[1..]);
      }
    }
  }

  lemma {:induction false} ProperLineInits(line: Text)
    requires ProperLine(line)
    ensures OneLine(line[..|line| - 1])
    ensures Chomp(line) == if EndsLine(line) then line[..|line| - 1] else line
  {
    if |line| > 1 {
      ProperLineInits(line[1..]);
      assert line[..|line| - 1] == [line[0]] + line[1..][..|line| - 2];
    }
  }

  lemma {:induction false} ChompedLine(line: Text)
    requires ProperLine(line)
    ensures OneLine(Chomp(line))
    ensures line == if EndsLine(line) then Chomp(line) + [NEWLINE] else Chomp(line)
  {
    ProperLineInits(line);
    assert !EndsLine(line) ==> line == line[..|line| - 1] + [line[|line| - 1]];
  }

  /** No line has `c`, its final newline aside. */
  predicate LinesLack(lines: seq<Text>, c: Rune) {
    lines != [] ==> Lacks(Chomp(lines[0]), c) && LinesLack(lines[1..], c)
  }

  lemma {:induction false} ProperLinesLackNewlines(lines: seq<Text>)
    requires ProperLines(lines)
    ensures LinesLack(lines, NEWLINE)
  {
    if lines != [] {
      ChompedLine(lines[0]);
      ProperLinesLackNewlines(lines[1..]);
    }
  }

  lemma {:induction false} LStripLacks(t: Text, c: Rune)
    requires Lacks(t, c)
    ensures Lacks(LStrip(t), c)
  {
  }

  lemma {:induction false} AbsorbedLacks(value: Text, rest: seq<Text>, c: Rune)
    requires Lacks(value, c) && LinesLack(rest, c)
    ensures Lacks(Absorb(value, rest).value, c)
    decreases |rest|
  {
    hide Chomp, LStrip, Dangling;
    if Dangling(value) {
      CutIsClosed(value);
      if rest != [] {
        var next := Chomp(rest[0]);
        LStripLacks(next, c);
        AbsorbedLacks(value[..|value| - 1] + LStrip(next), rest[1..], c);
      }
    }
  }

  /** The parts of a parsed entry hold no code point its lines do not hold. */
  lemma {:induction false} EntryLacks(lines: seq<Text>, c: Rune)
    requires lines != [] && LinesLack(lines, c) && c != EQUALS
    ensures var item := ParseHead(lines).item;
            item.Entry? ==> item.rawKey.Some? && Lacks(item.rawKey.value + item.separator, c) && Lacks(item.value, c)
  {
    hide Chomp, Absorb, OpensEntry, UnescapeKey;
    var line := Chomp(lines[0]);
    if OpensEntry(line) {
      match SplitPropertyLine(line)
      case Some(s) =>
        SplitIsGrammatical(line);
        assert s.key + s.separator == line[..|s.key + s.separator|];
        assert s.value == line[|s.key + s.separator|..];
        AbsorbedLacks(s.value, lines[1..], c);
      case None =>
    }
  }

  lemma {:induction false} SplitEntryOpens(line: Text, s: SplitLine, value: Text)
    requires OpensEntry(line) && SplitPropertyLine(line) == Some(s)
    ensures OpensEntry(s.key + s.separator)
    ensures OpensEntry(s.key + s.separator + value)
  {
    var first, head := LeadingSpaces(line), s.key + s.separator;
    SplitIsGrammatical(line);
    assert line == head + s.value;
    assert head[..first] == line[..first] && head[first] == line[first];
    LeadingSpacesIs(head, first);
    assert (head + value)[..first] == line[..first];
    LeadingSpacesIs(head + value, first);
  }

  lemma {:induction false} KeyOnlyOpens(line: Text, more: Text)
    requires OpensEntry(line)
    ensures OpensEntry(line + more)
  {
    assert (line + more)[..LeadingSpaces(line)] == line[..LeadingSpaces(line)];
    LeadingSpacesIs(line + more, LeadingSpaces(line));
  }

  lemma {:induction false} EntriesAreParsed(lines: seq<Text>)
    requires lines != [] && ProperLines(lines)
    ensures ParseHead(lines).item.Entry? ==> ParsedEntry(ParseHead(lines).item)
  {
    hide Chomp, Absorb, OpensEntry, UnescapeKey, SeparatesAt, IsSpace;
    ProperLinesLackNewlines(lines);
    EntryLacks(lines, NEWLINE);
    var line, h := Chomp(lines[0]), ParseHead(lines);
    assert lines[..h.used][0] == lines[0];
    if OpensEntry(line) {
      match SplitPropertyLine(line)
      case Some(s) =>
        SplitIsGrammatical(line);
        SplitEntryOpens(line, s, []);
        AbsorbedStartsSolid(s.value, lines[1..]);
      case None =>
        KeyOnlyIsParsed(line);
    }
  }

  lemma {:induction false} KeyOnlyIsParsed(line: Text)
    requires OpensEntry(line) && SplitPropertyLine(line).None?
    ensures forall i :: LeadingSpaces(line) <= i < |line| ==> !SeparatesAt(line, i)
    ensures SeparatorShape([EQUALS]) && SeparatorFits(line, [EQUALS])
    ensures OpensEntry(line + [EQUALS])
  {
    EqualsSeparates();
    KeyOnlyOpens(line, [EQUALS]);
  }

  // ------------------------------------------------------------------- the edits

  /** What a reader of the file sees of an item; how it was laid out is left aside. */
  datatype View =
    | CommentView(content: Text)
    | EntryView(key: Text, rawKey: Option<Text>, separator: Text, value: Text)

  function ViewOf(item: Item): View {
    match item
    case Comment(content) => CommentView(content)
    case Entry(key, rawKey, separator, value, _, _) => EntryView(key, rawKey, separator, value)
  }

  function Views(items: seq<Item>): (views: seq<View>)
    ensures |views| == |items|
  {
    if items == [] then [] else [ViewOf(items[0])] + Views(items[1..])
  }

  function WithValue(item: Item, value: Text): Item {
    if item.Entry? then item.(value := value) else item
  }

  function Edited(items: seq<Item>, values: seq<Text>): (edited: seq<Item>)
    requires |items| == |values|
    ensures |edited| == |items|
  {
    if items == [] then [] else [WithValue(items[0], values[0])] + Edited(items[1..], values[1..])
  }

  function Escaped(values: seq<Text>): (escaped: seq<Text>)
    ensures |escaped| == |values|
  {
    if values == [] then [] else [EscapeNewlines(values[0])] + Escaped(values[1..])
  }

  /** The rewritten line `rawKey separator value` keeps its three parts when it is read. */
  predicate Rewritable(rawKey: Text, separator: Text, value: Text) {
    var written := EscapeNewlines(value);
    !Dangling(rawKey) && ValueFits(separator, written) && !Dangling(written)
  }

  /** An edit that leaves the value as it is costs nothing; any other must be rewritable. */
  predicate EditFits(item: Item, value: Text) {
    item.Entry? && value != item.value ==>
      item.rawKey.Some? && Rewritable(item.rawKey.value, item.separator, value)
  }

  lemma {:induction false} OneLineIsProper(line: Text)
    requires OneLine(line)
    ensures ProperLine(line + [NEWLINE])
    ensures Chomp(line + [NEWLINE]) == line
  {
    var t := line + [NEWLINE];
    if line != [] {
      OneLineIsProper(line[1..]);
      assert t[1..] == line[1..] + [NEWLINE];
    }
    ProperLineInits(t);
    assert t[..|t| - 1] == line;
  }

  lemma {:induction false} RewrittenSplits(rawKey: Text, separator: Text, written: Text)
    requires forall i :: LeadingSpaces(rawKey) <= i < |rawKey| ==> !SeparatesAt(rawKey, i)
    requires SeparatorShape(separator) && SeparatorFits(rawKey, separator)
    ensures SplitPropertyLine(rawKey + separator + written) == Some(SplitLine(rawKey, separator, written))
            <==> !Dangling(rawKey) && ValueFits(separator, written)
  {
    hide SplitPropertyLine, SeparatesAt, Dangling, LeadingSpaces;
    var s := SplitLine(rawKey, separator, written);
    SplitIsExact(Unsplit(s), s);
  }

  /** A written line is read back part by part exactly when raw key and value allow it. */
  lemma {:induction false} WrittenHead(rawKey: Text, separator: Text, written: Text, rest: seq<Text>)
    requires forall i :: LeadingSpaces(rawKey) <= i < |rawKey| ==> !SeparatesAt(rawKey, i)
    requires SeparatorShape(separator) && SeparatorFits(rawKey, separator)
    requires OpensEntry(rawKey + separator) && OneLine(rawKey + separator) && OneLine(written)
    ensures var line := rawKey + separator + written + [NEWLINE]; ProperLine(line) && EndsLine(line)
    ensures var h := ParseHead([rawKey + separator + written + [NEWLINE]] + rest);
            if !Dangling(rawKey) && ValueFits(separator, written) && !Dangling(written) then
              h.used == 1 && ViewOf(h.item) == EntryView(UnescapeKey(rawKey), Some(rawKey), separator, written)
            else forall key :: ViewOf(h.item) != EntryView(key, Some(rawKey), separator, written)
  {
    hide SeparatesAt, Chomp, OpensEntry, SeparatorFits, ValueFits, LeadingSpaces, UnescapeKey, Concat;
    var line := rawKey + separator + written;
    OneLineIsProper(line);
    KeyOnlyOpens(rawKey + separator, written);
    RewrittenSplits(rawKey, separator, written);
    var lines := [line + [NEWLINE]] + rest;
    assert lines[0] == line + [NEWLINE] && lines[1..] == rest;
    match SplitPropertyLine(line)
    case Some(s) =>
      SplitIsGrammatical(line);
      if s.key == rawKey && s.separator == separator {
        assert s.value == line[|rawKey + separator|..] == written;
      }
    case None =>
      assert |line| > |rawKey|;
  }

  /** A rewritten entry is read back as intended exactly when the edit fits. */
  lemma {:induction false} RewrittenHead(item: Item, value: Text, rest: seq<Text>)
    requires ParsedEntry(item) && value != item.value
    ensures var e := Emit(item.(value := value)); ProperLine(e) && EndsLine(e)
    ensures var h := ParseHead([Emit(item.(value := value))] + rest);
            var intended := ViewOf(item.(value := EscapeNewlines(value)));
            if EditFits(item, value) then h.used == 1 && ViewOf(h.item) == intended
            else ViewOf(h.item) != intended
  {
    hide SeparatesAt, OpensEntry, SeparatorShape, SeparatorFits, ValueFits, LeadingSpaces, UnescapeKey, EscapeNewlines,
      ParseHead;
    WrittenHead(item.rawKey.value, item.separator, EscapeNewlines(value), rest);
  }

  /** An entry or comment followed by more of the file is emitted and read back unchanged. */
  lemma {:induction false} UnchangedHead(lines: seq<Text>, more: Text)
    requires lines != [] && ProperLines(lines)
    requires more == [] || ParseHead(lines).used < |lines|
    ensures var h := ParseHead(lines);
            && Emit(h.item) == Concat(lines[..h.used])
            && ReadLines(Emit(h.item) + more) == lines[..h.used] + ReadLines(more)
  {
    hide ReadLines, Chomp, OpensEntry, SplitPropertyLine, Absorb, UnescapeKey;
    var h := ParseHead(lines);
    assert lines[..h.used][0] == lines[0];
    assert lines[..1] == [lines[0]] && Concat(lines[..1]) == lines[0];
    ProperPrefix(lines, h.used);
    ReadLinesInverts(lines[..h.used], more);
  }

  lemma {:induction false} ProperPrefix(lines: seq<Text>, n: nat)
    requires n <= |lines| && ProperLines(lines)
    ensures ProperLines(lines[..n]) && ProperLines(lines[n..])
    ensures 0 < n < |lines| ==> EndsLine(lines[n - 1])
  {
    if n > 0 {
      ProperPrefix(lines[1..], n - 1);
      assert lines[..n][1..] == lines[1..][..n - 1] && lines[n..] == lines[1..][n - 1..];
    }
  }

  predicate AllEditsFit(items: seq<Item>, values: seq<Text>)
    requires |items| == |values|
  {
    forall i :: 0 <= i < |items| ==> EditFits(items[i], values[i])
  }

  lemma {:induction false} EditsAtLines(lines: seq<Text>, values: seq<Text>)
    requires ProperLines(lines) && |values| == |ParseLines(lines)|
    ensures Views(ParseLines(ReadLines(Reassemble(Edited(ParseLines(lines), values)))))
            == Views(Edited(ParseLines(lines), Escaped(values)))
            <==> AllEditsFit(ParseLines(lines), values)
    decreases |lines|
  {
    hide ReadLines, Concat, ParseHead, Emit, EditFits, EscapeNewlines, Views, ViewOf;
    NoLines();
    if lines != [] {
      var h := ParseHead(lines);
      var rest, items := lines[h.used..], ParseLines(lines);
      ProperPrefix(lines, h.used);
      assert items[0] == h.item && items[1..] == ParseLines(rest);
      EditsAtLines(rest, values[1..]);
      AllEditsSplit(items, values);
      var more := Reassemble(Edited(items[1..], values[1..]));
      EditedHead(lines, values[0], more);
      var edited := Edited(items, values);
      assert edited[1..] == Edited(items[1..], values[1..]);
      var read := ReadLines(Emit(edited[0]) + more);
      assert ReadLines(Reassemble(edited)) == read;
      ViewsCons(ParseHead(read).item, ParseLines(read[ParseHead(read).used..]));
      ViewsCons(WithValue(h.item, EscapeNewlines(values[0])), Edited(items[1..], Escaped(values[1..])));
      assert Escaped(values)[0] == EscapeNewlines(values[0]) && Escaped(values)[1..] == Escaped(values[1..]);
      ConsEqual(ViewOf(ParseHead(read).item), Views(ParseLines(read[ParseHead(read).used..])),
                ViewOf(WithValue(h.item, EscapeNewlines(values[0]))), Views(Edited(items[1..], Escaped(values[1..]))));
    }
  }

  lemma {:induction false} AllEditsSplit(items: seq<Item>, values: seq<Text>)
    requires |items| == |values| > 0
    ensures AllEditsFit(items, values) <==> EditFits(items[0], values[0]) && AllEditsFit(items[1..], values[1..])
  {
    hide EditFits;
    if EditFits(items[0], values[0]) && AllEditsFit(items[1..], values[1..]) {
      forall i | 0 <= i < |items| ensures EditFits(items[i], values[i]) {
        assert i > 0 ==> EditFits(items[1..][i - 1], values[1..][i - 1]);
      }
    }
    if AllEditsFit(items, values) {
      forall i | 0 <= i < |items[1..]| ensures EditFits(items[1..][i], values[1..][i]) {
        assert EditFits(items[i + 1], values[i + 1]);
      }
    }
  }

  lemma {:induction false} NoLines()
    ensures ReadLines([]) == []
  {
  }

  lemma {:induction false} NothingToEscape(value: Text)
    requires OneLine(value)
    ensures EscapeNewlines(value) == value
  {
    ReplaceAbsent(value, NEWLINE, NEWLINE_ESCAPE);
  }

  lemma {:induction false} ConsEqual(a: View, x: seq<View>, b: View, y: seq<View>)
    ensures [a] + x == [b] + y <==> a == b && x == y
  {
    assert ([a] + x)[0] == a && ([a] + x)[1..] == x;
    assert ([b] + y)[0] == b && ([b] + y)[1..] == y;
  }

  lemma {:induction false} ViewsCons(item: Item, rest: seq<Item>)
    ensures Views([item] + rest) == [ViewOf(item)] + Views(rest)
  {
    assert ([item] + rest)[1..] == rest;
  }

  /** The first item of an edited file is read back as intended exactly when its edit fits,
      and then the rest of the file is read as if it stood alone. */
  lemma {:induction false} EditedHead(lines: seq<Text>, value: Text, more: Text)
    requires lines != [] && ProperLines(lines)
    requires more == [] || ParseHead(lines).used < |lines|
    ensures var item := ParseHead(lines).item;
            var read := ReadLines(Emit(WithValue(item, value)) + more);
            var intended := ViewOf(WithValue(item, EscapeNewlines(value)));
            && read != []
            && (if EditFits(item, value) then
                  ViewOf(ParseHead(read).item) == intended && read[ParseHead(read).used..] == ReadLines(more)
                else ViewOf(ParseHead(read).item) != intended)
  {
    hide ReadLines, Concat, ParseLines, Absorb, EscapeNewlines;
    var h := ParseHead(lines);
    EntriesAreParsed(lines);
    if h.item.Entry? && value != h.item.value {
      var e := Emit(h.item.(value := value));
      RewrittenHead(h.item, value, ReadLines(more));
      ReadLinesCons(e, more);
    } else {
      UnchangedHead(lines, more);
      if h.item.Entry? {
        NothingToEscape(value);
      }
      if h.used < |lines| {
        HeadIsLocal(lines, ReadLines(more));
      } else {
        NoLines();
        assert lines[..h.used] + [] == lines;
      }
    }
  }

  // ------------------------------------------------------------- the main results

  lemma {:induction false} ParsedReassembly(lines: seq<Text>)
    requires lines != []
    ensures var h := ParseHead(lines);
            Reassemble(ParseLines(lines)) == Emit(h.item) + Reassemble(ParseLines(lines[h.used..]))
  {
    hide ParseHead, Emit;
    var h := ParseHead(lines);
    assert ([h.item] + ParseLines(lines[h.used..]))[1..] == ParseLines(lines[h.used..]);
  }

  lemma {:induction false} ParsedLinesReassemble(lines: seq<Text>)
    requires ProperLines(lines)
    ensures Reassemble(ParseLines(lines)) == Concat(lines)
    decreases |lines|
  {
    hide ParseHead, Emit, ProperLines, ReadLines;
    if lines != [] {
      var h := ParseHead(lines);
      var rest := lines[h.used..];
      ProperPrefix(lines, h.used);
      UnchangedHead(lines, []);
      ParsedLinesReassemble(rest);
      ParsedReassembly(lines);
      hide ParseLines, Reassemble, Concat;
      ConcatAppend(lines[..h.used], rest);
      assert lines == lines[..h.used] + rest;
    }
  }

  lemma {:induction false} NewlinesAreUniversal(t: Text)
    ensures UniversalNewlines(t) == t <==> Lacks(t, CARRIAGE_RETURN)
  {
    if Lacks(t, CARRIAGE_RETURN) && t != [] {
      assert t[0] != CARRIAGE_RETURN;
      NewlinesAreUniversal(t[1..]);
    }
  }

  /** Each way to end a line is read as one newline. */
  lemma {:induction false} LineEndingsAreOne(line: Text, rest: Text)
    requires Lacks(line, 0x0D)
    ensures UniversalNewlines(line) == line
    ensures UniversalNewlines(line + [0x0D, 0x0A] + rest) == line + [0x0A] + UniversalNewlines(rest)
    ensures rest == [] || rest[0] != 0x0A ==>
              UniversalNewlines(line + [0x0D] + rest) == line + [0x0A] + UniversalNewlines(rest)
    ensures UniversalNewlines(line + [0x0A] + rest) == line + [0x0A] + UniversalNewlines(rest)
  {
    var back, both := [CARRIAGE_RETURN], [CARRIAGE_RETURN, NEWLINE];
    assert line + [] == line && (both + rest)[2..] == rest && (back + rest)[1..] == rest;
    OrdinaryRune(NEWLINE, rest);
    assert UniversalNewlines(both + rest) == [NEWLINE] + UniversalNewlines(rest);
    OrdinaryLine(line, []);
    OrdinaryLine(line, both + rest);
    OrdinaryLine(line, back + rest);
    OrdinaryLine(line, [NEWLINE] + rest);
    assert line + both + rest == line + (both + rest);
    assert line + back + rest == line + (back + rest);
    assert line + [NEWLINE] + rest == line + ([NEWLINE] + rest);
  }

  lemma {:induction false} OrdinaryLine(line: Text, more: Text)
    requires Lacks(line, CARRIAGE_RETURN)
    ensures UniversalNewlines(line + more) == line + UniversalNewlines(more)
  {
    hide UniversalNewlines;
    if line == [] {
      assert line + more == more;
    } else {
      OrdinaryLine(line[1..], more);
      OrdinaryRune(line[0], line[1..] + more);
      assert line + more == [line[0]] + (line[1..] + more);
    }
  }

  lemma {:induction false} OrdinaryRune(c: Rune, rest: Text)
    requires c != CARRIAGE_RETURN
    ensures UniversalNewlines([c] + rest) == [c] + UniversalNewlines(rest)
  {
    assert ([c] + rest)[1..] == rest;
  }

  /** An unmodified parse reassembles to the text that was read, comments, malformed escapes,
      continuations and a missing final newline included; that is the file itself exactly
      when it holds no carriage return. */
  lemma {:induction false} ByteStability(t: Text)
    ensures Reassemble(ParseFile(t)) == UniversalNewlines(t)
    ensures Reassemble(ParseFile(t)) == t <==> Lacks(t, CARRIAGE_RETURN)
  {
    var read := UniversalNewlines(t);
    ReadLinesIsProper(read);
    ParsedLinesReassemble(ReadLines(read));
    NewlinesAreUniversal(t);
  }

  lemma {:induction false} ParsedEntriesOf(lines: seq<Text>)
    requires ProperLines(lines)
    ensures forall i :: 0 <= i < |ParseLines(lines)| ==> ParseLines(lines)[i].Entry? ==>
                          ParsedEntry(ParseLines(lines)[i])
    decreases |lines|
  {
    hide ParseHead, ParsedEntry;
    if lines != [] {
      EntriesAreParsed(lines);
      ProperPrefix(lines, ParseHead(lines).used);
      ParsedEntriesOf(lines[ParseHead(lines).used..]);
    }
  }

  /** Every entry of a file keeps its raw key's meaning, and its value is one line that starts with
      no whitespace and ends in an even run of backslashes. */
  lemma {:induction false} FileEntriesAreParsed(text: Text)
    ensures forall i :: 0 <= i < |ParseFile(text)| ==> ParseFile(text)[i].Entry? ==> ParsedEntry(ParseFile(text)[i])
  {
    hide ParsedEntry, ParseLines, ReadLines;
    ReadLinesIsProper(UniversalNewlines(text));
    ParsedEntriesOf(ReadLines(UniversalNewlines(text)));
  }

  /** An edit that also survives being written and read in text mode. */
  predicate EditSurvives(item: Item, value: Text) {
    EditFits(item, value) && (item.Entry? && value != item.value ==> Lacks(value, CARRIAGE_RETURN))
  }

  lemma {:induction false} ReplaceKeeps(t: Text, c: Rune, with: Text, d: Rune)
    requires c != d && Lacks(with, d)
    ensures Lacks(Replace(t, [c], with), d) <==> Lacks(t, d)
  {
    if t != [] {
      ReplaceKeeps(t[1..], c, with, d);
      var tail := Replace(t[1..], [c], with);
      var head := if [c] <= t then with else [t[0]];
      assert Replace(t, [c], with) == head + tail;
      LacksCons(head, tail, d);
      LacksCons([t[0]], t[1..], d);
      assert t == [t[0]] + t[1..];
    }
  }

  lemma {:induction false} LacksCons(a: Text, b: Text, c: Rune)
    ensures Lacks(a + b, c) <==> Lacks(a, c) && Lacks(b, c)
  {
    if Lacks(a + b, c) {
      assert forall i :: 0 <= i < |a| ==> a[i] == (a + b)[i];
      assert forall i :: 0 <= i < |b| ==> b[i] == (a + b)[|a| + i];
    }
  }

  lemma {:induction false} ConcatLacks(lines: seq<Text>, c: Rune)
    ensures Lacks(Concat(lines), c) <==> forall i :: 0 <= i < |lines| ==> Lacks(lines[i], c)
  {
    if lines != [] {
      ConcatLacks(lines[1..], c);
      LacksCons(lines[0], Concat(lines[1..]), c);
      assert forall i :: 0 <= i < |lines[1..]| ==> lines[1..][i] == lines[i + 1];
      assert forall i :: 1 <= i < |lines| ==> lines[i] == lines[1..][i - 1];
    }
  }

  lemma {:induction false} TextLinesLack(lines: seq<Text>, c: Rune)
    requires Lacks(Concat(lines), c)
    ensures LinesLack(lines, c)
  {
    if lines != [] {
      LacksCons(lines[0], Concat(lines[1..]), c);
      var line := Chomp(lines[0]);
      assert line == lines[0][..|line|];
      TextLinesLack(lines[1..], c);
    }
  }

  lemma {:induction false} ParsedValuesLack(lines: seq<Text>, c: Rune)
    requires LinesLack(lines, c) && c != EQUALS
    ensures forall i :: 0 <= i < |ParseLines(lines)| ==>
              ParseLines(lines)[i].Entry? ==> Lacks(ParseLines(lines)[i].value, c)
    decreases |lines|
  {
    hide Chomp, OpensEntry, UnescapeKey, SplitPropertyLine, Absorb;
    if lines != [] {
      var used := ParseHead(lines).used;
      EntryLacks(lines, c);
      LinesLackDrop(lines, used, c);
      ParsedValuesLack(lines[used..], c);
    }
  }

  lemma {:induction false} LinesLackDrop(lines: seq<Text>, n: nat, c: Rune)
    requires n <= |lines| && LinesLack(lines, c)
    ensures LinesLack(lines[n..], c)
  {
    if n > 0 {
      LinesLackDrop(lines[1..], n - 1, c);
      assert lines[n..] == lines[1..][n - 1..];
    }
  }

  lemma {:induction false} EditedTextLacks(lines: seq<Text>, values: seq<Text>, c: Rune)
    requires ProperLines(lines) && Lacks(Concat(lines), c)
    requires c != EQUALS && c != NEWLINE && Lacks(NEWLINE_ESCAPE, c)
    requires |values| == |ParseLines(lines)|
    requires forall i :: 0 <= i < |values| ==>
               ParseLines(lines)[i].Entry? && values[i] != ParseLines(lines)[i].value ==> Lacks(values[i], c)
    ensures Lacks(Reassemble(Edited(ParseLines(lines), values)), c)
    decreases |lines|
  {
    hide ReadLines, ParseHead, ParsedEntry, EscapeNewlines, Emit;
    if lines != [] {
      var h, items := ParseHead(lines), ParseLines(lines);
      var rest := lines[h.used..];
      ProperPrefix(lines, h.used);
      ConcatAppend(lines[..h.used], rest);
      assert lines == lines[..h.used] + rest;
      LacksCons(Concat(lines[..h.used]), Concat(rest), c);
      assert items[0] == h.item && items[1..] == ParseLines(rest);
      assert forall i :: 0 <= i < |values[1..]| ==> values[1..][i] == values[i + 1] && items[1..][i] == items[i + 1];
      EditedTextLacks(rest, values[1..], c);
      EditedHeadLacks(lines, values[0], c);
      LacksCons(Emit(WithValue(h.item, values[0])), Reassemble(Edited(items[1..], values[1..])), c);
      assert Edited(items, values)[1..] == Edited(items[1..], values[1..]);
    }
  }

  lemma {:induction false} EditedHeadLacks(lines: seq<Text>, value: Text, c: Rune)
    requires lines != [] && ProperLines(lines)
    requires Lacks(Concat(lines), c) && Lacks(Concat(lines[..ParseHead(lines).used]), c)
    requires c != EQUALS && c != NEWLINE && Lacks(NEWLINE_ESCAPE, c)
    requires ParseHead(lines).item.Entry? && value != ParseHead(lines).item.value ==> Lacks(value, c)
    ensures Lacks(Emit(WithValue(ParseHead(lines).item, value)), c)
  {
    hide ReadLines, ParseHead, Concat;
    var item := ParseHead(lines).item;
    if item.Entry? && value != item.value {
      EntriesAreParsed(lines);
      TextLinesLack(lines, c);
      EntryLacks(lines, c);
      ReplaceKeeps(value, NEWLINE, NEWLINE_ESCAPE, c);
      LacksCons(item.rawKey.value + item.separator, EscapeNewlines(value), c);
      LacksCons(item.rawKey.value + item.separator + EscapeNewlines(value), [NEWLINE], c);
    } else {
      UnchangedHead(lines, []);
    }
  }

  lemma {:induction false} ViewsAt(items: seq<Item>, i: nat)
    requires i < |items|
    ensures Views(items)[i] == ViewOf(items[i])
  {
    if i > 0 {
      ViewsAt(items[1..], i - 1);
    }
  }

  lemma {:induction false} EditedAt(items: seq<Item>, values: seq<Text>, i: nat)
    requires |items| == |values| && i < |items|
    ensures Edited(items, values)[i] == WithValue(items[i], values[i])
    ensures Escaped(values)[i] == EscapeNewlines(values[i])
  {
    if i > 0 {
      EditedAt(items[1..], values[1..], i - 1);
    }
  }

  /** Re-reading an edited file shows the same comments, keys, separators and order with exactly
      the values edited, newlines spelled `\n`, if and only if every edit survives: it leaves the
      value alone, or the new value holds no carriage return, does not start with what the
      separator absorbs, ends in an even run of backslashes, and the raw key is not dangling. */
  lemma {:induction false} EditAndReparse(t: Text, values: seq<Text>)
    requires |values| == |ParseFile(t)|
    ensures Views(ParseFile(Reassemble(Edited(ParseFile(t), values))))
            == Views(Edited(ParseFile(t), Escaped(values)))
            <==> forall i :: 0 <= i < |values| ==> EditSurvives(ParseFile(t)[i], values[i])
  {
    hide UniversalNewlines, ReadLines, ParseLines, Concat, Edited, Escaped, Reassemble, EditFits, Views;
    var lines := ReadLines(UniversalNewlines(t));
    var items, text := ParseFile(t), Reassemble(Edited(ParseFile(t), values));
    ReadLinesIsProper(UniversalNewlines(t));
    if i :| 0 <= i < |values| && items[i].Entry? && values[i] != items[i].value && !Lacks(values[i], CARRIAGE_RETURN) {
      CarriageReturnIsLost(items, values, i, text);
      assert !EditSurvives(items[i], values[i]);
    } else {
      EditedTextLacks(lines, values, CARRIAGE_RETURN);
      NewlinesAreUniversal(text);
      EditsAtLines(lines, values);
      assert AllEditsFit(items, values) <==> forall i :: 0 <= i < |values| ==> EditSurvives(items[i], values[i]);
    }
  }

  lemma {:induction false} CarriageReturnIsLost(items: seq<Item>, values: seq<Text>, i: nat, text: Text)
    requires |items| == |values| && i < |items|
    requires items[i].Entry? && !Lacks(values[i], CARRIAGE_RETURN)
    ensures Views(ParseFile(text)) != Views(Edited(items, Escaped(values)))
  {
    hide UniversalNewlines, ReadLines, ParseLines, Concat, Edited, Escaped, Views, Replace;
    var read := UniversalNewlines(text);
    ReadLinesIsProper(read);
    TextLinesLack(ReadLines(read), CARRIAGE_RETURN);
    ParsedValuesLack(ReadLines(read), CARRIAGE_RETURN);
    ReplaceKeeps(values[i], NEWLINE, NEWLINE_ESCAPE, CARRIAGE_RETURN);
    assert !Lacks(EscapeNewlines(values[i]), CARRIAGE_RETURN);
    EditedAt(items, values, i);
    EditedAt(items, Escaped(values), i);
    ViewsAt(Edited(items, Escaped(values)), i);
    var again := ParseFile(text);
    if |again| > i {
      ViewsAt(again, i);
    }
  }
}
