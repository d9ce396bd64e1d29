/** Whole `.properties` files: reading, reassembling, and what editing values preserves. */
module PropertiesFile {
  import opened Texts
  import opened PropertiesSyntax
  import opened PropertiesKeys

  /** One element of the parsed file. `rawKey` and `parsedValue` are absent on entries that
      were not read from a file; `entryText` is then empty. */
  datatype Item =
    | Comment(content: Text)
    | Entry(key: Text, rawKey: Option<Text>, separator: Text, value: Text,
            parsedValue: Option<Text>, entryText: Text)

  // ------------------------------------------------------------------- reading

  /** What reading a file in text mode does to `\r\n` and `\r`. */
  function UniversalNewlines(t: Text): (r: Text)
    ensures Lacks(r, CARRIAGE_RETURN)
  {
    if t == [] then []
    else if t[0] != CARRIAGE_RETURN then [t[0]] + UniversalNewlines(t[1..])
    else [NEWLINE] + UniversalNewlines(if |t| > 1 && t[1] == NEWLINE then t[2..] else t[1..])
  }

  /** A newline ends its own line; any other code point joins the line that follows. */
  function PrependToLines(c: Rune, lines: seq<Text>): seq<Text> {
    if c == NEWLINE || lines == [] then [[c]] + lines else [[c] + lines[0]] + lines[1..]
  }

  /** `readlines()`: every line keeps its newline. */
  function ReadLines(t: Text): (lines: seq<Text>) {
    if t == [] then [] else PrependToLines(t[0], ReadLines(t[1..]))
  }

  /** `rstrip('\n')`. */
  function Chomp(line: Text): (r: Text)
    ensures r <= line
  {
    if line != [] && line[|line| - 1] == NEWLINE then Chomp(line[..|line| - 1]) else line
  }

  predicate EndsLine(line: Text) {
    line != [] && line[|line| - 1] == NEWLINE
  }

  // ------------------------------------------------------------------- parsing

  datatype Absorbed = Absorbed(value: Text, used: nat)

  /** Joins continuation lines to `value`; at the end of the file the backslash is dropped. */
  function Absorb(value: Text, rest: seq<Text>): (a: Absorbed)
    ensures a.used <= |rest|
    ensures !Dangling(a.value)
    decreases |rest|
  {
    if !Dangling(value) then Absorbed(value, 0)
    else
      var cut := value[..|value| - 1];
      if rest == [] then CutIsClosed(value); Absorbed(cut, 0)
      else
        var a := Absorb(cut + LStrip(Chomp(rest[0])), rest[1..]);
        Absorbed(a.value, a.used + 1)
  }

  lemma {:induction false} CutIsClosed(value: Text)
    requires Dangling(value)
    ensures value != [] && !Dangling(value[..|value| - 1])
  {
    EscapedStep(value, |value|);
    var cut := value[..|value| - 1];
    assert value == cut + [value[|value| - 1]];
    EscapedIsLocal(cut, [value[|value| - 1]], |cut|);
  }

  /** The line opens an entry: it is neither blank nor a comment. */
  predicate OpensEntry(line: Text) {
    var first := LeadingSpaces(line);
    first < |line| && line[first] != HASH && line[first] != EXCLAMATION
  }

  datatype Head = Head(item: Item, used: nat)

  /** The item the first physical line opens, and how many physical lines it takes. */
  function ParseHead(lines: seq<Text>): (h: Head)
    requires lines != []
    ensures 0 < h.used <= |lines|
  {
    var line := Chomp(lines[0]);
    if !OpensEntry(line) then Head(Comment(lines[0]), 1)
    else match SplitPropertyLine(line)
      case Some(s) =>
        var a := Absorb(s.value, lines[1..]);
        Head(Entry(UnescapeKey(s.key), Some(s.key), s.separator, a.value, Some(a.value),
                   Concat(lines[..1 + a.used])), 1 + a.used)
      case None =>
        var key := UnescapeKey(line);
        if key == [] then Head(Comment(lines[0]), 1)
        else Head(Entry(key, Some(line), [EQUALS], [], Some([]), lines[0]), 1)
  }

  function ParseLines(lines: seq<Text>): seq<Item>
    decreases |lines|
  {
    if lines == [] then []
    else
      var h := ParseHead(lines);
      [h.item] + ParseLines(lines[h.used..])
  }

  function ParseFile(t: Text): seq<Item> {
    ParseLines(ReadLines(UniversalNewlines(t)))
  }

  /** The translations dictionary: of duplicate keys the last entry wins. */
  function Translations(items: seq<Item>): map<Text, Text> {
    if items == [] then map[]
    else
      var before, last := Translations(items[..|items| - 1]), items[|items| - 1];
      if last.Entry? then before[last.key := last.value] else before
  }

  // --------------------------------------------------------------- reassembling

  const NEWLINE_ESCAPE: Text := [BACKSLASH, LOWER_N]

  /** `value.replace('\n', '\\n')`. */
  function EscapeNewlines(value: Text): (r: Text)
    ensures Lacks(r, NEWLINE)
  {
    ReplaceRemoves(value, NEWLINE, NEWLINE_ESCAPE);
    Replace(value, [NEWLINE], NEWLINE_ESCAPE)
  }

  function Emit(item: Item): Text {
    match item
    case Comment(content) => content
    case Entry(key, rawKey, separator, value, parsedValue, entryText) =>
      if Some(value) == parsedValue && entryText != [] then entryText
      else
        var raw := if rawKey.Some? && UnescapeKey(rawKey.value) == key then rawKey.value else EscapeKey(key);
        raw + separator + EscapeNewlines(value) + [NEWLINE]
  }

  function Reassemble(items: seq<Item>): Text {
    if items == [] then [] else Emit(items[0]) + Reassemble(items[1..])
  }

  // ------------------------------------------------------------ the file methods

  lemma {:induction false} TranslationsAppend(items: seq<Item>, item: Item)
    ensures Translations(items + [item])
            == if item.Entry? then Translations(items)[item.key := item.value] else Translations(items)
  {
    var all := items + [item];
    assert all[..|all| - 1] == items;
  }

  lemma {:induction false} ConcatSnoc(lines: seq<Text>, line: Text)
    ensures Concat(lines + [line]) == Concat(lines) + line
  {
    ConcatAppend(lines, [line]);
    assert [line][1..] == [];
  }

  /** Joins the continuation lines that follow line `start`; `next` is the first line left. */
  method AbsorbLines(first: Text, lines: seq<Text>, start: nat) returns (value: Text, entryText: Text, next: nat)
    requires start < |lines|
    ensures start < next <= |lines|
    ensures Absorb(first, lines[start + 1..]) == Absorbed(value, next - start - 1)
    ensures entryText == Concat(lines[start..next])
  {
    hide Dangling, LStrip, Chomp;
    value, entryText, next := first, lines[start], start + 1;
    assert lines[start..start + 1] == [lines[start]];
    var dangling := HasUnescapedTrailingBackslash(value);
    while dangling
      invariant start < next <= |lines|
      invariant dangling <==> Dangling(value)
      invariant entryText == Concat(lines[start..next])
      invariant Absorb(first, lines[start + 1..]).value == Absorb(value, lines[next..]).value
      invariant Absorb(first, lines[start + 1..]).used == next - start - 1 + Absorb(value, lines[next..]).used
      decreases dangling, |lines| - next
    {
      CutIsClosed(value);
      value := value[..|value| - 1];
      if next == |lines| {
        break;
      }
      ghost var rest := lines[next..];
      assert rest[0] == lines[next] && rest[1..] == lines[next + 1..];
      assert lines[start..next + 1] == lines[start..next] + [lines[next]];
      ConcatSnoc(lines[start..next], lines[next]);
      value := value + LStrip(Chomp(lines[next]));
      entryText := entryText + lines[next];
      next := next + 1;
      dangling := HasUnescapedTrailingBackslash(value);
    }
  }

  /** Parses the item that starts on line `i`; `next` is the first line left. */
  method ParseNext(lines: seq<Text>, i: nat) returns (item: Item, next: nat)
    requires i < |lines|
    ensures i < next <= |lines|
    ensures Head(item, next - i) == ParseHead(lines[i..])
  {
    hide Chomp, SplitPropertyLine, UnescapeKey, Absorb, Concat, OpensEntry;
    ghost var rest := lines[i..];
    assert rest[0] == lines[i] && rest[1..] == lines[i + 1..];
    var line := Chomp(lines[i]);
    next := i + 1;
    if !OpensEntry(line) {
      return Comment(lines[i]), next;
    }
    var split := ScanPropertyLine(line);
    match split
    case Some(s) =>
      var key := DecodeKey(s.key);
      var value, entryText;
      value, entryText, next := AbsorbLines(s.value, lines, i);
      assert lines[i..next] == rest[..next - i];
      return Entry(key, Some(s.key), s.separator, value, Some(value), entryText), next;
    case None =>
      var key := DecodeKey(line);
      if key != [] {
        return Entry(key, Some(line), [EQUALS], [], Some([]), lines[i]), next;
      }
      return Comment(lines[i]), next;
  }

  lemma {:induction false} ParseUnfolds(lines: seq<Text>, i: nat, next: nat)
    requires i < next <= |lines| && ParseHead(lines[i..]).used == next - i
    ensures ParseLines(lines[i..]) == [ParseHead(lines[i..]).item] + ParseLines(lines[next..])
  {
    hide ParseHead;
    assert lines[i..][next - i..] == lines[next..];
  }

  method ParsePropertiesFile(text: Text) returns (parsed: seq<Item>, translations: map<Text, Text>)
    ensures parsed == ParseFile(text)
    ensures translations == Translations(parsed)
  {
    hide ReadLines, UniversalNewlines, ParseHead;
    var lines := ReadLines(UniversalNewlines(text));
    parsed, translations := [], map[];
    var i := 0;
    while i < |lines|
      invariant i <= |lines|
      invariant ParseLines(lines) == parsed + ParseLines(lines[i..])
      invariant translations == Translations(parsed)
    {
      var item, next := ParseNext(lines, i);
      ParseUnfolds(lines, i, next);
      TranslationsAppend(parsed, item);
      if item.Entry? {
        translations := translations[item.key := item.value];
      }
      parsed := parsed + [item];
      i := next;
    }
  }

  lemma {:induction false} ReassembleAppend(items: seq<Item>, item: Item)
    ensures Reassemble(items + [item]) == Reassemble(items) + Emit(item)
  {
    if items == [] {
      assert (items + [item])[1..] == [];
    } else {
      assert (items + [item])[1..] == items[1..] + [item];
      ReassembleAppend(items[1..], item);
    }
  }

  method ReassembleFile(parsed: seq<Item>) returns (text: Text)
    ensures text == Reassemble(parsed)
  {
    text := [];
    for i := 0 to |parsed|
      invariant text == Reassemble(parsed[..i])
    {
      assert parsed[..i + 1] == parsed[..i] + [parsed[i]];
      ReassembleAppend(parsed[..i], parsed[i]);
      match parsed[i]
      case Comment(content) =>
        text := text + content;
      case Entry(key, rawKey, separator, value, parsedValue, entryText) =>
        var raw := [];
        var reuse := rawKey.Some?;
        if reuse {
          raw := rawKey.value;
          var decoded := DecodeKey(raw);
          reuse := decoded == key;
        }
        if !reuse {
          raw := EncodeKey(key);
        }
        if Some(value) == parsedValue && entryText != [] {
          text := text + entryText;
          continue;
        }
        text := text + (raw + separator + EscapeNewlines(value) + [NEWLINE]);
    }
    assert parsed[..|parsed|] == parsed;
  }
}
