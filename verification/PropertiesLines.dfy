/** Lines that the parser takes apart in a known way, the material of concrete files. */
module PropertiesLines {
  import opened Texts
  import opened PropertiesSyntax
  import opened PropertiesKeys
  import opened PropertiesFile
  import opened PropertiesRoundTrip
  import opened Entries

  /** Key, separator and value of a line that is an entry whatever stands around it. */
  predicate Plain(s: SplitLine) {
    Grammatical(s) && OpensEntry(s.key + s.separator) && Lacks(Unsplit(s), NEWLINE)
        && Lacks(Unsplit(s), CARRIAGE_RETURN)
  }

  function EntryOn(s: SplitLine, value: Text, text: Text): (item: Item)
    ensures item.Entry?
  {
    Entry(UnescapeKey(s.key), Some(s.key), s.separator, value, Some(value), text)
  }

  /** The entry that the line opens, with the continuation lines it takes. */
  lemma {:induction false} PlainHead(s: SplitLine, line: Text, rest: seq<Text>)
    requires Plain(s) && Chomp(line) == Unsplit(s)
    ensures var a := Absorb(s.value, rest);
            ParseHead([line] + rest) == Head(EntryOn(s, a.value, Concat(([line] + rest)[..1 + a.used])), 1 + a.used)
  {
    hide Grammatical, OpensEntry, UnescapeKey, SplitPropertyLine, Absorb, Concat;
    GrammaticalSplits(s);
    KeyOnlyOpens(s.key + s.separator, s.value);
    assert ([line] + rest)[0] == line && ([line] + rest)[1..] == rest;
  }

  lemma {:induction false} PlainEntry(s: SplitLine, line: Text, rest: seq<Text>)
    requires Plain(s) && Chomp(line) == Unsplit(s) && !Dangling(s.value)
    ensures ParseLines([line] + rest) == [EntryOn(s, s.value, line)] + ParseLines(rest)
  {
    hide Plain, Chomp, Dangling, EntryOn, ParseHead;
    PlainHead(s, line, rest);
    OneLineConcat(line);
    assert ([line] + rest)[..1] == [line] && ([line] + rest)[1..] == rest;
  }

  lemma {:induction false} OneLineConcat(line: Text)
    ensures Concat([line]) == line
  {
    assert [line][1..] == [];
    assert line + [] == line;
  }

  lemma {:induction false} EndedLine(s: SplitLine)
    requires Plain(s)
    ensures var line := Unsplit(s) + [NEWLINE];
            ProperLine(line) && EndsLine(line) && Chomp(line) == Unsplit(s) && Lacks(line, CARRIAGE_RETURN)
  {
    hide Grammatical, OpensEntry, Unsplit;
    OneLineIsProper(Unsplit(s));
    LacksCons(Unsplit(s), [NEWLINE], CARRIAGE_RETURN);
  }

  /** Plain lines, each with its newline. */
  function TextOf(lines: seq<SplitLine>): Text {
    if lines == [] then [] else Unsplit(lines[0]) + [NEWLINE] + TextOf(lines[1..])
  }

  function EntriesOf(lines: seq<SplitLine>): (items: seq<Item>)
    ensures |items| == |lines|
  {
    if lines == [] then []
    else [EntryOn(lines[0], lines[0].value, Unsplit(lines[0]) + [NEWLINE])] + EntriesOf(lines[1..])
  }

  predicate Whole(s: SplitLine) {
    Plain(s) && !Dangling(s.value)
  }

  lemma {:induction false} PlainLines(lines: seq<SplitLine>)
    requires forall i :: 0 <= i < |lines| ==> Whole(lines[i])
    ensures ParseLines(ReadLines(TextOf(lines))) == EntriesOf(lines) && Lacks(TextOf(lines), CARRIAGE_RETURN)
  {
    hide Plain, ReadLines, ParseLines, Chomp, Dangling, EntryOn, Unsplit;
    NoLines();
    NothingParsed();
    if lines != [] {
      var line, more := Unsplit(lines[0]) + [NEWLINE], TextOf(lines[1..]);
      assert Whole(lines[0]);
      assert forall i :: 0 <= i < |lines[1..]| ==> lines[1..][i] == lines[i + 1];
      PlainLines(lines[1..]);
      EndedLine(lines[0]);
      ReadLinesCons(line, more);
      PlainEntry(lines[0], line, ReadLines(more));
      LacksCons(line, more, CARRIAGE_RETURN);
    }
  }

  /** A file of plain lines. */
  lemma {:induction false} PlainFile(lines: seq<SplitLine>)
    requires forall i :: 0 <= i < |lines| ==> Whole(lines[i])
    ensures ParseFile(TextOf(lines)) == EntriesOf(lines)
  {
    hide Whole, UniversalNewlines, ReadLines, ParseLines;
    PlainLines(lines);
    NewlinesAreUniversal(TextOf(lines));
  }

  lemma {:induction false} OneLineText(s: SplitLine)
    ensures TextOf([s]) == Unsplit(s) + [NEWLINE] && EntriesOf([s]) == [EntryOn(s, s.value, Unsplit(s) + [NEWLINE])]
  {
    assert [s][1..] == [];
  }

  lemma {:induction false} TwoLineText(s: SplitLine, z: SplitLine)
    ensures TextOf([s, z]) == Unsplit(s) + [NEWLINE] + (Unsplit(z) + [NEWLINE])
    ensures EntriesOf([s, z]) == [EntryOn(s, s.value, Unsplit(s) + [NEWLINE]),
            EntryOn(z, z.value, Unsplit(z) + [NEWLINE])]
  {
    assert [s, z][1..] == [z];
    OneLineText(z);
  }

  lemma {:induction false} PlainFileOfOne(s: SplitLine)
    requires Whole(s)
    ensures ParseFile(Unsplit(s) + [NEWLINE]) == [EntryOn(s, s.value, Unsplit(s) + [NEWLINE])]
  {
    hide ParseFile, Whole, EntryOn;
    PlainFile([s]);
    OneLineText(s);
  }

  lemma {:induction false} PlainFileOfTwo(s: SplitLine, z: SplitLine)
    requires Whole(s) && Whole(z)
    ensures ParseFile(Unsplit(s) + [NEWLINE] + (Unsplit(z) + [NEWLINE]))
            == [EntryOn(s, s.value, Unsplit(s) + [NEWLINE]), EntryOn(z, z.value, Unsplit(z) + [NEWLINE])]
  {
    hide ParseFile, Whole, EntryOn;
    PlainFile([s, z]);
    TwoLineText(s, z);
  }

  lemma {:induction false} EmittedTogether(x: Item, y: Item)
    ensures Reassemble([x, y]) == Emit(x) + Emit(y)
  {
    hide Emit;
    assert [x, y][1..] == [y] && [y][1..] == [];
    assert Reassemble([y]) == Emit(y) + [] == Emit(y);
  }

  lemma {:induction false} NothingParsed()
    ensures ParseLines([]) == []
  {
  }

  /** How the entry of a plain line is written with another value. */
  lemma {:induction false} RewrittenLine(s: SplitLine, value: Text, now: SplitLine)
    requires value != s.value && Lacks(value, NEWLINE) && s.key + s.separator + value == Unsplit(now)
    ensures var item := EntryOn(s, s.value, Unsplit(s) + [NEWLINE]);
            item.Entry? && Emit(item.(value := value)) == Unsplit(now) + [NEWLINE]
  {
    hide UnescapeKey, EscapeNewlines;
    NothingToEscape(value);
  }

  /** The dictionary of a file of one line, written with another value. */
  lemma {:induction false} RewrittenFile(s: SplitLine, value: Text, now: SplitLine)
    requires Whole(now) && value != s.value && Lacks(value, NEWLINE) && s.key + s.separator + value == Unsplit(now)
    ensures var item := EntryOn(s, s.value, Unsplit(s) + [NEWLINE]);
            item.Entry? && Translations(ParseFile(Reassemble([item.(value := value)])))
                == map[UnescapeKey(now.key) := now.value]
  {
    RewrittenLine(s, value, now);
    hide Whole, UnescapeKey, ParseFile, Emit, Translations;
    var item := EntryOn(s, s.value, Unsplit(s) + [NEWLINE]).(value := value);
    assert [item][1..] == [] && Reassemble([item]) == Emit(item) + [] == Emit(item);
    PlainFileOfOne(now);
    OneTranslation(EntryOn(now, now.value, Unsplit(now) + [NEWLINE]));
  }

  // ------------------------------------------------------------ continued lines

  /** The value ends in a single backslash. */
  predicate Continued(s: SplitLine) {
    Plain(s) && s.value != [] && s.value[|s.value| - 1] == BACKSLASH && Lacks(s.value[..|s.value| - 1], BACKSLASH)
  }

  function Cut(s: SplitLine): Text
    requires s.value != []
  {
    s.value[..|s.value| - 1]
  }

  /** At the end of the file the backslash is dropped. */
  lemma {:induction false} CutFile(s: SplitLine)
    requires Continued(s)
    ensures ParseFile(Unsplit(s) + [NEWLINE]) == [EntryOn(s, Cut(s), Unsplit(s) + [NEWLINE])]
  {
    var line := Unsplit(s) + [NEWLINE];
    ContinuedDangles(s.value);
    assert Absorb(s.value, []) == Absorbed(Cut(s), 0);
    hide Plain, UniversalNewlines, ReadLines, ParseLines, Chomp, Dangling, EntryOn, Unsplit, Absorb, Concat, Lacks;
    EndedLine(s);
    NewlinesAreUniversal(line);
    ReadLinesCons(line, []);
    NoLines();
    assert line + [] == line && [line] + [] == [line];
    HeadAlone(s, line, []);
    OneLineConcat(line);
  }

  /** The next line becomes part of the value. */
  lemma {:induction false} SwallowingFile(s: SplitLine, next: SplitLine)
    requires Continued(s) && Plain(next) && next.value != [] && next.value[|next.value| - 1] != BACKSLASH
    requires !IsSpace(Unsplit(next)[0])
    ensures var text := Unsplit(s) + [NEWLINE] + (Unsplit(next) + [NEWLINE]);
            ParseFile(text) == [EntryOn(s, Cut(s) + Unsplit(next), text)]
  {
    var line, second := Unsplit(s) + [NEWLINE], Unsplit(next) + [NEWLINE];
    ContinuedDangles(s.value);
    EndedLine(s);
    EndedLine(next);
    SwallowedLine(s.value, next, second);
    hide Plain, UniversalNewlines, ReadLines, ParseLines, Chomp, Dangling, EntryOn, Unsplit, Absorb, Concat, Lacks;
    LacksCons(line, second, CARRIAGE_RETURN);
    NewlinesAreUniversal(line + second);
    ReadLinesCons(line, second);
    ReadLinesCons(second, []);
    NoLines();
    assert second + [] == second && [second] + [] == [second];
    HeadAlone(s, line, [second]);
    OneLineConcat(line);
    OneLineConcat(second);
    ConcatAppend([line], [second]);
  }

  lemma {:induction false} ContinuedDangles(value: Text)
    requires value != [] && value[|value| - 1] == BACKSLASH && Lacks(value[..|value| - 1], BACKSLASH)
    ensures Dangling(value)
  {
    var n := |value| - 1;
    assert n > 0 ==> value[n - 1] == value[..n][n - 1];
    assert BackslashesBefore(value, n) == 0;
  }

  lemma {:induction false} SwallowedLine(value: Text, next: SplitLine, second: Text)
    requires Dangling(value) && value != [] && Chomp(second) == Unsplit(next)
    requires next.value != [] && next.value[|next.value| - 1] != BACKSLASH && !IsSpace(Unsplit(next)[0])
    ensures Absorb(value, [second]) == Absorbed(value[..|value| - 1] + Unsplit(next), 1)
  {
    hide Chomp, IsSpace;
    var line := Unsplit(next);
    var joined := value[..|value| - 1] + line;
    assert line[..0] == [];
    LeadingSpacesIs(line, 0);
    assert LStrip(line) == line;
    assert line[|line| - 1] == next.value[|next.value| - 1] && joined[|joined| - 1] == line[|line| - 1];
    assert BackslashesBefore(joined, |joined|) == 0;
    assert [second][1..] == [];
    CutIsClosed(value);
  }

  /** A head that takes all the lines there are. */
  lemma {:induction false} HeadAlone(line: SplitLine, text: Text, rest: seq<Text>)
    requires Plain(line) && Chomp(text) == Unsplit(line) && Absorb(line.value, rest).used == |rest|
    ensures ParseLines([text] + rest) == [EntryOn(line, Absorb(line.value, rest).value, Concat([text] + rest))]
  {
    hide Plain, EntryOn, Absorb, ParseHead, Concat;
    PlainHead(line, text, rest);
    var all := [text] + rest;
    assert all[..|all|] == all && all[|all|..] == [];
    NothingParsed();
  }

  // ------------------------------------------------------------ letters as keys

  /** A code point that a key may hold as it is. */
  predicate Letter(c: Rune) {
    !NeedsEscape(c) && c != HASH && c != EXCLAMATION
  }

  /** The characters that separate a key from its value on their own. */
  predicate OneSeparator(c: Rune) {
    c in {0x3D, 0x3A, 0x20, 0x09, 0x0C}
  }

  lemma {:induction false} LetterLine(k: Rune, separator: Rune, value: Text)
    requires Letter(k) && OneSeparator(separator) && ValueFits([separator], value)
    requires Lacks(value, NEWLINE) && Lacks(value, CARRIAGE_RETURN)
    ensures Plain(SplitLine([k], [separator], value)) && UnescapeKey([k]) == [k]
  {
    var s := SplitLine([k], [separator], value);
    LetterKey(k);
    LetterGrammar(k, separator);
    LetterOpens(k, separator);
    assert s.key + s.separator == [k, separator];
    LacksCons([k, separator], value, NEWLINE);
    LacksCons([k, separator], value, CARRIAGE_RETURN);
    hide KeyShape, SeparatorShape, SeparatorFits, OpensEntry, ValueFits, UnescapeKey;
  }

  lemma {:induction false} LetterKey(k: Rune)
    requires Letter(k)
    ensures UnescapeKey([k]) == [k]
  {
    assert [k][1..] == [];
    assert EscapeKey([k]) == [k];
    KeyCodec([k]);
  }

  lemma {:induction false} LetterGrammar(k: Rune, separator: Rune)
    requires Letter(k) && OneSeparator(separator)
    ensures KeyShape([k]) && SeparatorShape([separator]) && SeparatorFits([k], [separator])
  {
    assert [k][..0] == [] && [separator][..0] == [] && [separator][..1] == [separator];
    LeadingSpacesIs([k], 0);
    LeadingSpacesIs([separator], if separator == EQUALS || separator == COLON then 0 else 1);
    assert [separator][1..] == [];
    assert !AllSpace([k]) by { assert !IsSpace([k][0]); }
  }

  lemma {:induction false} LetterOpens(k: Rune, separator: Rune)
    requires Letter(k)
    ensures OpensEntry([k, separator])
  {
    assert [k, separator][..0] == [];
    LeadingSpacesIs([k, separator], 0);
  }

  /** Behind a space, an equals sign belongs to the separator. */
  lemma {:induction false} AbsorbingLine(k: Rune, value: Text)
    requires Letter(k) && StartsSolid(value) && Lacks(value, NEWLINE) && Lacks(value, CARRIAGE_RETURN)
    ensures Plain(SplitLine([k], [SPACE, EQUALS], value)) && UnescapeKey([k]) == [k]
  {
    var s, separator := SplitLine([k], [SPACE, EQUALS], value), [SPACE, EQUALS];
    LetterKey(k);
    LetterGrammar(k, SPACE);
    LetterOpens(k, SPACE);
    KeyOnlyOpens([k, SPACE], [EQUALS]);
    assert separator[..1] == [SPACE] && separator[2..] == [];
    assert AllSpace([SPACE]);
    LeadingSpacesIs(separator, 1);
    assert !AllSpace(separator) by { assert !IsSpace(separator[1]); }
    assert s.key + s.separator == [k, SPACE] + [EQUALS];
    LacksCons(s.key + s.separator, value, NEWLINE);
    LacksCons(s.key + s.separator, value, CARRIAGE_RETURN);
    hide KeyShape, OpensEntry, UnescapeKey;
    assert !AllSpace([k]) by { assert !IsSpace([k][0]); }
  }

  /** A line that starts with `=` is an entry of the empty key. */
  lemma {:induction false} NamelessLine(value: Text)
    requires ValueFits([EQUALS], value) && Lacks(value, NEWLINE) && Lacks(value, CARRIAGE_RETURN)
    ensures Plain(SplitLine([], [EQUALS], value)) && UnescapeKey([]) == []
  {
    var s := SplitLine([], [EQUALS], value);
    assert s.key + s.separator == [EQUALS] && [EQUALS][..0] == [];
    assert !IsSpace(EQUALS);
    LeadingSpacesIs([EQUALS], 0);
    LacksCons([EQUALS], value, NEWLINE);
    LacksCons([EQUALS], value, CARRIAGE_RETURN);
    EqualsSeparates();
    KeyCodec([]);
  }
}
