/** A grammar of whole `.properties` files, and what each part of a file means. */
module PropertiesBlocks {
  import opened Texts
  import opened PropertiesSyntax
  import opened PropertiesKeys
  import opened PropertiesFile
  import opened PropertiesRoundTrip
  import opened PropertiesLines
  import opened PropertiesWriting

  /** A continuation line: its indentation and what it adds to the value. */
  datatype Tail = Tail(indent: Text, text: Text)

  /** What a file is made of: blank lines and comments, keys without a separator, and entries with
      the lines that continue them. */
  datatype Block =
    | Remark(line: Text)
    | Lone(line: Text)
    | Pair(head: SplitLine, tails: seq<Tail>)

  predicate OnOneLine(t: Text) {
    Lacks(t, NEWLINE) && Lacks(t, CARRIAGE_RETURN)
  }

  /** Blank, or with `#` or `!` as its first visible character. */
  predicate IsRemark(line: Text) {
    var n := LeadingSpaces(line);
    n < |line| ==> line[n] == 0x23 || line[n] == 0x21
  }

  /** No `=`, `:` or whitespace behind the indentation but what a backslash escapes. */
  predicate HasNoSeparator(line: Text) {
    forall i :: LeadingSpaces(line) <= i < |line| ==>
      !((line[i] == 0x3D || line[i] == 0x3A || IsSpace(line[i])) && BackslashesBefore(line, i) % 2 == 0)
  }

  /** Each text but the last ends in an odd run of backslashes, and the last does not. */
  predicate Chained(first: Text, tails: seq<Tail>)
    decreases |tails|
  {
    if tails == [] then !Dangling(first)
    else
      && Dangling(first)
      && AllSpace(tails[0].indent) && OnOneLine(tails[0].indent) && OnOneLine(tails[0].text)
      && (tails[0].text != [] ==> !IsSpace(tails[0].text[0]))
      && Chained(tails[0].text, tails[1..])
  }

  predicate LegalBlock(b: Block) {
    match b
    case Remark(line) => OnOneLine(line) && IsRemark(line)
    case Lone(line) => OnOneLine(line) && !IsRemark(line) && HasNoSeparator(line)
    case Pair(head, tails) => Plain(head) && Chained(head.value, tails)
  }

  function TailText(tails: seq<Tail>): Text {
    if tails == [] then [] else tails[0].indent + tails[0].text + [NEWLINE] + TailText(tails[1..])
  }

  function BlockText(b: Block): Text {
    match b
    case Remark(line) => line + [NEWLINE]
    case Lone(line) => line + [NEWLINE]
    case Pair(head, tails) => Unsplit(head) + [NEWLINE] + TailText(tails)
  }

  function FileText(blocks: seq<Block>): Text {
    if blocks == [] then [] else BlockText(blocks[0]) + FileText(blocks[1..])
  }

  /** The texts one behind the other, each without the backslash that continues it. */
  function Joined(first: Text, tails: seq<Tail>): Text
    requires Chained(first, tails)
    decreases |tails|
  {
    if tails == [] then first
    else
      CutIsClosed(first);
      first[..|first| - 1] + Joined(tails[0].text, tails[1..])
  }

  /** What a block means: an entry that keeps the text it was written as, or a remark. */
  function Meaning(b: Block): Item
    requires LegalBlock(b)
  {
    match b
    case Remark(line) => Comment(line + [NEWLINE])
    case Lone(line) =>
      var key := UnescapeKey(line);
      if key == [] then Comment(line + [NEWLINE])
      else Entry(key, Some(line), [0x3D], [], Some([]), line + [NEWLINE])
    case Pair(head, tails) =>
      var value := Joined(head.value, tails);
      Entry(UnescapeKey(head.key), Some(head.key), head.separator, value, Some(value), BlockText(b))
  }

  function Meanings(blocks: seq<Block>): seq<Item>
    requires forall i :: 0 <= i < |blocks| ==> LegalBlock(blocks[i])
  {
    if blocks == [] then [] else [Meaning(blocks[0])] + Meanings(blocks[1..])
  }

  // ------------------------------------------------------------------- physical lines

  function TailLines(tails: seq<Tail>): (lines: seq<Text>)
    ensures |lines| == |tails|
  {
    if tails == [] then [] else [tails[0].indent + tails[0].text + [NEWLINE]] + TailLines(tails[1..])
  }

  lemma {:induction false} LineIsProper(line: Text)
    requires OnOneLine(line)
    ensures ProperLine(line + [NEWLINE]) && EndsLine(line + [NEWLINE]) && Chomp(line + [NEWLINE]) == line
    ensures Lacks(line + [NEWLINE], CARRIAGE_RETURN)
  {
    OneLineIsProper(line);
    LacksCons(line, [NEWLINE], CARRIAGE_RETURN);
  }

  lemma {:induction false} NoTails()
    ensures TailText([]) == [] && TailLines([]) == [] && Concat([]) == [] && Lacks([], CARRIAGE_RETURN)
  {
  }

  lemma {:induction false} TailStep(tails: seq<Tail>)
    requires tails != []
    ensures TailText(tails) == tails[0].indent + tails[0].text + [NEWLINE] + TailText(tails[1..])
    ensures TailLines(tails) == [tails[0].indent + tails[0].text + [NEWLINE]] + TailLines(tails[1..])
  {
  }

  lemma {:induction false} TailIsProper(tail: Tail)
    requires OnOneLine(tail.indent) && OnOneLine(tail.text)
    ensures var line := tail.indent + tail.text;
            && ProperLine(line + [NEWLINE]) && EndsLine(line + [NEWLINE]) && Chomp(line + [NEWLINE]) == line
            && Lacks(line + [NEWLINE], CARRIAGE_RETURN)
  {
    LacksCons(tail.indent, tail.text, NEWLINE);
    LacksCons(tail.indent, tail.text, CARRIAGE_RETURN);
    LineIsProper(tail.indent + tail.text);
  }

  lemma {:induction false} TailLinesAreRead(first: Text, tails: seq<Tail>, more: Text)
    requires Chained(first, tails)
    ensures ReadLines(TailText(tails) + more) == TailLines(tails) + ReadLines(more)
    ensures Concat(TailLines(tails)) == TailText(tails)
    ensures Lacks(TailText(tails), CARRIAGE_RETURN)
    decreases |tails|
  {
    hide ReadLines, ProperLine, EndsLine, Chomp, Dangling, AllSpace, Lacks, IsSpace, OnOneLine, TailText, TailLines,
      Concat;
    if tails == [] {
      NoTails();
      assert [] + more == more;
    } else {
      var line := tails[0].indent + tails[0].text + [NEWLINE];
      var rest, lines := TailText(tails[1..]), TailLines(tails[1..]);
      TailLinesAreRead(tails[0].text, tails[1..], more);
      TailStep(tails);
      TailIsProper(tails[0]);
      ReadLinesCons(line, rest + more);
      LacksCons(line, rest, CARRIAGE_RETURN);
      assert line + rest + more == line + (rest + more);
      assert [line] + lines + ReadLines(more) == [line] + (lines + ReadLines(more));
      ConcatAppend([line], lines);
      OneLineConcat(line);
    }
  }

  /** Stripping a continuation line takes away its indentation. */
  lemma {:induction false} IndentIsStripped(tail: Tail)
    requires AllSpace(tail.indent) && (tail.text != [] ==> !IsSpace(tail.text[0]))
    ensures LStrip(tail.indent + tail.text) == tail.text
  {
    var t := tail.indent + tail.text;
    assert t[..|tail.indent|] == tail.indent;
    LeadingSpacesIs(t, |tail.indent|);
  }

  /** The value of a continued entry is that of its texts joined, wherever its first text starts. */
  lemma {:induction false} TailsAreAbsorbed(before: Text, first: Text, tails: seq<Tail>, rest: seq<Text>)
    requires !Dangling(before) && Chained(first, tails)
    ensures Absorb(before + first, TailLines(tails) + rest) == Absorbed(before + Joined(first, tails), |tails|)
    decreases |tails|
  {
    hide Chomp, LStrip, Dangling, Absorb, AllSpace, OnOneLine, TailLines, Lacks;
    ClosedBefore(before, first);
    if tails == [] {
      NoTails();
      AbsorbsNothing(before + first, TailLines(tails) + rest);
    } else {
      CutIsClosed(first);
      var cut := first[..|first| - 1];
      assert (before + first)[..|before + first| - 1] == before + cut;
      ClosedBefore(before, cut);
      TailStep(tails);
      var line, more := tails[0].indent + tails[0].text, TailLines(tails[1..]) + rest;
      assert TailLines(tails) + rest == [line + [NEWLINE]] + more;
      TailIsProper(tails[0]);
      IndentIsStripped(tails[0]);
      AbsorbsOne(before + first, line + [NEWLINE], more);
      TailsAreAbsorbed(before + cut, tails[0].text, tails[1..], rest);
      assert before + cut + Joined(tails[0].text, tails[1..]) == before + Joined(first, tails);
    }
  }

  /** Behind a text that does not dangle, dangling depends on what follows alone. */
  lemma {:induction false} ClosedBefore(before: Text, text: Text)
    requires !Dangling(before)
    ensures Dangling(before + text) <==> Dangling(text)
  {
    EscapedAfter(before, text, |text|);
  }

  lemma {:induction false} AbsorbsNothing(value: Text, lines: seq<Text>)
    requires !Dangling(value)
    ensures Absorb(value, lines) == Absorbed(value, 0)
  {
  }

  lemma {:induction false} AbsorbsOne(value: Text, line: Text, more: seq<Text>)
    requires Dangling(value) && value != []
    ensures var a := Absorb(value[..|value| - 1] + LStrip(Chomp(line)), more);
            Absorb(value, [line] + more) == Absorbed(a.value, a.used + 1)
  {
    hide Chomp, LStrip, Dangling;
    assert ([line] + more)[1..] == more;
  }

  // -------------------------------------------------------------------------- blocks

  function BlockLines(b: Block): (lines: seq<Text>)
    ensures lines != []
  {
    match b
    case Remark(line) => [line + [NEWLINE]]
    case Lone(line) => [line + [NEWLINE]]
    case Pair(head, tails) => [Unsplit(head) + [NEWLINE]] + TailLines(tails)
  }

  lemma {:induction false} BlockIsRead(b: Block, more: Text)
    requires LegalBlock(b)
    ensures ReadLines(BlockText(b) + more) == BlockLines(b) + ReadLines(more)
    ensures Concat(BlockLines(b)) == BlockText(b) && Lacks(BlockText(b), CARRIAGE_RETURN)
  {
    hide ReadLines, ProperLine, EndsLine, Chomp, Plain, IsRemark, HasNoSeparator, Unsplit, TailText;
    match b
    case Remark(line) =>
      LineIsProper(line);
      ReadLinesCons(line + [NEWLINE], more);
      OneLineConcat(line + [NEWLINE]);
    case Lone(line) =>
      LineIsProper(line);
      ReadLinesCons(line + [NEWLINE], more);
      OneLineConcat(line + [NEWLINE]);
    case Pair(head, tails) =>
      var line, rest := Unsplit(head) + [NEWLINE], TailText(tails);
      EndedLine(head);
      TailLinesAreRead(head.value, tails, more);
      ReadLinesCons(line, rest + more);
      LacksCons(line, rest, CARRIAGE_RETURN);
      assert BlockText(b) + more == line + (rest + more);
  }

  lemma {:induction false} RemarkHead(b: Block, rest: seq<Text>)
    requires b.Remark? && LegalBlock(b)
    ensures ParseHead(BlockLines(b) + rest) == Head(Meaning(b), |BlockLines(b)|)
  {
    LineIsProper(b.line);
    hide Chomp, SplitPropertyLine, UnescapeKey, Absorb, Concat;
  }

  lemma {:induction false} NoSplitWithoutSeparator(line: Text)
    requires HasNoSeparator(line)
    ensures SplitPropertyLine(line) == None
  {
    assert FirstSeparator(line, LeadingSpaces(line)) == |line|;
  }

  lemma {:induction false} LoneHead(b: Block, rest: seq<Text>)
    requires b.Lone? && LegalBlock(b)
    ensures ParseHead(BlockLines(b) + rest) == Head(Meaning(b), |BlockLines(b)|)
  {
    LineIsProper(b.line);
    NoSplitWithoutSeparator(b.line);
    hide Chomp, SplitPropertyLine, UnescapeKey, Absorb, Concat, HasNoSeparator;
  }

  lemma {:induction false} PairHead(b: Block, rest: seq<Text>)
    requires b.Pair? && LegalBlock(b)
    ensures ParseHead(BlockLines(b) + rest) == Head(Meaning(b), |BlockLines(b)|)
  {
    hide Plain, Chomp, UnescapeKey, Absorb, Concat, Unsplit, ParseHead, Dangling, Joined, TailText;
    var line, lines := Unsplit(b.head) + [NEWLINE], TailLines(b.tails) + rest;
    EndedLine(b.head);
    NothingDangles();
    TailsAreAbsorbed([], b.head.value, b.tails, rest);
    assert [] + b.head.value == b.head.value;
    assert [] + Joined(b.head.value, b.tails) == Joined(b.head.value, b.tails);
    PlainHead(b.head, line, lines);
    BlockIsRead(b, []);
    assert BlockLines(b) + rest == [line] + lines;
    assert ([line] + lines)[..1 + |b.tails|] == BlockLines(b);
  }

  lemma {:induction false} NothingDangles()
    ensures !Dangling([])
  {
  }

  lemma {:induction false} BlockIsParsed(b: Block, rest: seq<Text>)
    requires LegalBlock(b)
    ensures ParseLines(BlockLines(b) + rest) == [Meaning(b)] + ParseLines(rest)
  {
    hide ParseHead, BlockLines, Meaning, LegalBlock;
    if b.Remark? {
      RemarkHead(b, rest);
    } else if b.Lone? {
      LoneHead(b, rest);
    } else {
      PairHead(b, rest);
    }
    assert (BlockLines(b) + rest)[|BlockLines(b)|..] == rest;
  }

  // --------------------------------------------------------------------------- files

  /** The parser reads every file of the grammar as the meaning of its blocks. */
  lemma {:induction false} FileMeansItsBlocks(blocks: seq<Block>)
    requires forall i :: 0 <= i < |blocks| ==> LegalBlock(blocks[i])
    ensures ParseFile(FileText(blocks)) == Meanings(blocks)
  {
    hide ReadLines, UniversalNewlines, ParseLines;
    BlocksAreParsed(blocks);
    NewlinesAreUniversal(FileText(blocks));
  }

  lemma {:induction false} BlocksAreParsed(blocks: seq<Block>)
    requires forall i :: 0 <= i < |blocks| ==> LegalBlock(blocks[i])
    ensures ParseLines(ReadLines(FileText(blocks))) == Meanings(blocks) && Lacks(FileText(blocks), CARRIAGE_RETURN)
  {
    hide ReadLines, ParseLines, LegalBlock, BlockText, BlockLines, Meaning;
    NoLines();
    NothingParsed();
    if blocks != [] {
      var b, more := blocks[0], FileText(blocks[1..]);
      assert LegalBlock(b);
      BlocksAreParsed(blocks[1..]);
      BlockIsRead(b, more);
      BlockIsParsed(b, ReadLines(more));
      LacksCons(BlockText(b), more, CARRIAGE_RETURN);
    }
  }

  // ------------------------------------------------------------- every file has blocks

  /** The continuation lines of a value that starts with `first` behind what is already joined. */
  function TailsOf(first: Text, rest: seq<Text>): seq<Tail>
    decreases |rest|
  {
    if !Dangling(first) || rest == [] then []
    else
      var line := Chomp(rest[0]);
      var n := LeadingSpaces(line);
      [Tail(line[..n], line[n..])] + TailsOf(line[n..], rest[1..])
  }

  lemma {:induction false} TailsAreTaken(before: Text, first: Text, rest: seq<Text>)
    requires !Dangling(before) && Completed(before + first, rest) && EndedLines(rest)
    ensures Chained(first, TailsOf(first, rest))
    ensures var used := Absorb(before + first, rest).used;
            used == |TailsOf(first, rest)| && TailText(TailsOf(first, rest)) == Concat(rest[..used])
    decreases |rest|
  {
    hide Chomp, IsEscaped, Lacks;
    EscapedAfter(before, first, |first|);
    if Dangling(first) {
      CutIsClosed(first);
      var cut, line := first[..|first| - 1], Chomp(rest[0]);
      var n := LeadingSpaces(line);
      assert (before + first)[..|before + first| - 1] == before + cut;
      EscapedAfter(before, cut, |cut|);
      assert LStrip(line) == line[n..];
      assert before + cut + line[n..] == before + cut + LStrip(line);
      EndedTail(rest);
      SliceIsOnOneLine(line, n);
      TailsAreTaken(before + cut, line[n..], rest[1..]);
      var used := Absorb(before + cut + line[n..], rest[1..]).used;
      assert rest[..used + 1] == [rest[0]] + rest[1..][..used];
      assert line[..n] + line[n..] == line;
    }
  }

  /** Lines that each end in a newline and hold no other line break. */
  predicate EndedLines(lines: seq<Text>) {
    forall i :: 0 <= i < |lines| ==> OnOneLine(Chomp(lines[i])) && lines[i] == Chomp(lines[i]) + [NEWLINE]
  }

  lemma {:induction false} EndedTail(lines: seq<Text>)
    requires EndedLines(lines) && lines != []
    ensures EndedLines(lines[1..]) && OnOneLine(Chomp(lines[0])) && lines[0] == Chomp(lines[0]) + [NEWLINE]
  {
    hide Chomp, OnOneLine;
  }

  lemma {:induction false} EndedRest(lines: seq<Text>, n: nat)
    requires EndedLines(lines) && n <= |lines|
    ensures EndedLines(lines[n..])
  {
    hide Chomp, OnOneLine;
  }

  lemma {:induction false} SliceIsOnOneLine(line: Text, n: nat)
    requires OnOneLine(line) && n <= |line|
    ensures OnOneLine(line[..n]) && OnOneLine(line[n..])
  {
  }

  lemma {:induction false} HeadHasBlock(lines: seq<Text>) returns (b: Block)
    requires lines != [] && EndedLines(lines) && HeadCompleted(lines)
    ensures LegalBlock(b) && BlockText(b) == Concat(lines[..ParseHead(lines).used])
  {
    var line := Chomp(lines[0]);
    EndedTail(lines);
    if !OpensEntry(line) {
      hide *;
      b := Remark(line);
      SingleLine(lines, b);
    } else if SplitPropertyLine(line).None? {
      KeyOnlyIsParsed(line);
      hide *;
      b := Lone(line);
      SingleLine(lines, b);
    } else {
      hide *;
      b := PairHasBlock(lines, SplitPropertyLine(line).value);
    }
  }

  lemma {:induction false} SingleLine(lines: seq<Text>, b: Block)
    requires lines != [] && lines[0] == Chomp(lines[0]) + [NEWLINE] && OnOneLine(Chomp(lines[0]))
    requires var line := Chomp(lines[0]);
             || (!OpensEntry(line) && b == Remark(line))
             || (OpensEntry(line) && SplitPropertyLine(line).None? && b == Lone(line))
    requires b.Lone? ==> forall i :: LeadingSpaces(b.line) <= i < |b.line| ==> !SeparatesAt(b.line, i)
    ensures LegalBlock(b) && BlockText(b) == Concat(lines[..ParseHead(lines).used])
  {
    if b.Lone? { UnseparatedIsLone(b.line); }
    hide Concat, Chomp, UnescapeKey, OnOneLine, SplitPropertyLine, Absorb, HasNoSeparator, SeparatesAt;
    assert ParseHead(lines).used == 1;
    assert lines[..1] == [lines[0]];
    OneLineConcat(lines[0]);
  }

  lemma {:induction false} UnseparatedIsLone(line: Text)
    requires forall i :: LeadingSpaces(line) <= i < |line| ==> !SeparatesAt(line, i)
    ensures HasNoSeparator(line)
  {
    forall i | LeadingSpaces(line) <= i < |line|
      ensures !((line[i] == 0x3D || line[i] == 0x3A || IsSpace(line[i])) && BackslashesBefore(line, i) % 2 == 0)
    {
      assert !SeparatesAt(line, i);
    }
  }

  lemma {:induction false} PairUsed(lines: seq<Text>, s: SplitLine)
    requires lines != [] && HeadCompleted(lines)
    requires OpensEntry(Chomp(lines[0])) && SplitPropertyLine(Chomp(lines[0])) == Some(s)
    ensures ParseHead(lines).used == 1 + Absorb(s.value, lines[1..]).used && Completed(s.value, lines[1..])
  {
    hide Concat, Chomp, UnescapeKey, SplitPropertyLine, Absorb, OpensEntry, Completed;
  }

  lemma {:induction false} PairHasBlock(lines: seq<Text>, s: SplitLine) returns (b: Block)
    requires lines != [] && EndedLines(lines) && HeadCompleted(lines)
    requires OpensEntry(Chomp(lines[0])) && SplitPropertyLine(Chomp(lines[0])) == Some(s)
    ensures LegalBlock(b) && BlockText(b) == Concat(lines[..ParseHead(lines).used])
  {
    hide Completed, Concat, Chomp, UnescapeKey, OnOneLine, SplitPropertyLine, Absorb, ParseHead, Plain, Chained,
      TailText, TailsOf, OpensEntry, HeadCompleted, EndedLines, IsEscaped, Unsplit;
    EndedTail(lines);
    PlainStart(Chomp(lines[0]), s);
    NothingDangles();
    PairUsed(lines, s);
    assert [] + s.value == s.value;
    TailsAreTaken([], s.value, lines[1..]);
    var used := Absorb(s.value, lines[1..]).used;
    assert lines[..1 + used] == [lines[0]] + lines[1..][..used];
    OneLineConcat(lines[0]);
    ConcatAppend([lines[0]], lines[1..][..used]);
    b := Pair(s, TailsOf(s.value, lines[1..]));
  }

  lemma {:induction false} PlainStart(line: Text, s: SplitLine)
    requires OpensEntry(line) && OnOneLine(line) && SplitPropertyLine(line) == Some(s)
    ensures Plain(s) && Unsplit(s) == line
  {
    SplitIsExact(line, s);
    SplitEntryOpens(line, s, s.value);
    hide OpensEntry, SplitPropertyLine, Grammatical;
  }

  /** A file whose last line is ended and completed is made of blocks, which the parser reads. */
  lemma {:induction false} EveryFileHasBlocks(text: Text) returns (blocks: seq<Block>)
    requires Lacks(text, CARRIAGE_RETURN) && (text != [] ==> EndsLine(text)) && AllCompleted(ReadLines(text))
    ensures forall i :: 0 <= i < |blocks| ==> LegalBlock(blocks[i])
    ensures FileText(blocks) == text && ParseFile(text) == Meanings(blocks)
  {
    hide AllCompleted, ParseFile;
    ReadLinesIsProper(text);
    LinesAreEnded(text);
    blocks := LinesHaveBlocks(ReadLines(text));
    FileMeansItsBlocks(blocks);
  }

  lemma {:induction false} LinesAreEnded(text: Text)
    requires Lacks(text, CARRIAGE_RETURN) && (text != [] ==> EndsLine(text))
    ensures EndedLines(ReadLines(text))
  {
    hide Chomp, EndsLine;
    ReadLinesIsProper(text);
    var lines := ReadLines(text);
    forall i | 0 <= i < |lines| ensures OnOneLine(Chomp(lines[i])) && lines[i] == Chomp(lines[i]) + [NEWLINE] {
      ConcatLacks(lines, CARRIAGE_RETURN);
      ProperPrefix(lines, i + 1);
      ProperPrefix(lines, i);
      assert lines[i..][0] == lines[i];
      ChompedLine(lines[i]);
      if i + 1 == |lines| { LastLineEnds(lines); }
      assert forall k :: 0 <= k < |Chomp(lines[i])| ==> Chomp(lines[i])[k] == lines[i][k];
    }
  }

  lemma {:induction false} LinesHaveBlocks(lines: seq<Text>) returns (blocks: seq<Block>)
    requires EndedLines(lines) && AllCompleted(lines)
    ensures forall i :: 0 <= i < |blocks| ==> LegalBlock(blocks[i])
    ensures FileText(blocks) == Concat(lines)
    decreases |lines|
  {
    hide HeadCompleted, ParseHead, LegalBlock, BlockText, EndedLines;
    if lines == [] {
      return [];
    }
    var used := ParseHead(lines).used;
    var b := HeadHasBlock(lines);
    EndedRest(lines, used);
    var more := LinesHaveBlocks(lines[used..]);
    ConcatAppend(lines[..used], lines[used..]);
    assert lines[..used] + lines[used..] == lines;
    blocks := [b] + more;
    assert blocks[1..] == more;
  }
}
