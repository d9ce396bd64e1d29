/** String-aware scans for container depth: one cuts the first object out of a text, the other
    refuses texts that nest too deep. */
module JsonScan {
  import opened Texts
  import opened JsonText

  datatype Lex = Outside | Inside(escaped: bool)

  /** Where a scan stands; `low` and `peak` are the extremes of the depth so far, and
      `saturated` records a closing bracket met at depth zero. */
  datatype State = State(lex: Lex, depth: int, peak: int, low: int, saturated: bool)

  const START := State(Outside, 0, 0, 0, false)

  predicate Opens(arrays: bool, c: Rune) { c == LEFT_BRACE || (arrays && c == LEFT_BRACKET) }

  predicate Closes(arrays: bool, c: Rune) { c == RIGHT_BRACE || (arrays && c == RIGHT_BRACKET) }

  function AtDepth(s: State, lex: Lex, depth: int): State {
    State(lex, depth, Max(s.peak, depth), if depth < s.low then depth else s.low, s.saturated)
  }

  /** One character. The scan that counts arrays too is the one that never goes below zero. */
  function Step(arrays: bool, s: State, c: Rune): State {
    match s.lex
    case Inside(escaped) =>
      AtDepth(s, if escaped then Inside(false) else if c == BACKSLASH then Inside(true)
                 else if c == QUOTE then Outside else Inside(false), s.depth)
    case Outside =>
      if c == QUOTE then AtDepth(s, Inside(false), s.depth)
      else if Opens(arrays, c) then AtDepth(s, Outside, s.depth + 1)
      else if Closes(arrays, c) then
        if arrays && s.depth == 0 then AtDepth(s, Outside, 0).(saturated := true) else AtDepth(s, Outside, s.depth - 1)
      else AtDepth(s, Outside, s.depth)
  }

  function Scan(arrays: bool, s: State, t: Text): State
    decreases |t|
  {
    if t == [] then s else Scan(arrays, Step(arrays, s, t[0]), t[1..])
  }

  lemma {:induction false} ScanAppend(arrays: bool, s: State, a: Text, b: Text)
    ensures Scan(arrays, s, a + b) == Scan(arrays, Scan(arrays, s, a), b)
    decreases |a|
  {
    if a == [] {
      assert a + b == b;
    } else {
      assert (a + b)[1..] == a[1..] + b;
      ScanAppend(arrays, Step(arrays, s, a[0]), a[1..], b);
    }
  }

  // ---------------------------------------------------- scanning what was printed

  /** Outside strings, with extremes that embrace the current depth. */
  predicate Settled(s: State) {
    s.lex == Outside && 0 <= s.depth && s.low <= s.depth <= s.peak
  }

  /** Characters that neither open, close nor quote leave a settled scan alone. */
  lemma {:induction false} NeutralScan(arrays: bool, s: State, t: Text)
    requires Settled(s)
    requires forall i :: 0 <= i < |t| ==> t[i] != QUOTE && !Opens(true, t[i]) && !Closes(true, t[i])
    ensures Scan(arrays, s, t) == s
  {
    if t != [] {
      NeutralScan(arrays, s, t[1..]);
    }
  }

  lemma {:induction false} BlanksScan(arrays: bool, s: State, t: Text)
    requires Settled(s) && AllBlank(t)
    ensures Scan(arrays, s, t) == s
  {
    NeutralScan(arrays, s, t);
  }

  lemma {:induction false} MarksScan(arrays: bool, s: State)
    requires Settled(s)
    ensures Scan(arrays, s, [COLON]) == s && Scan(arrays, s, [COMMA]) == s
  {
    NeutralScan(arrays, s, [COLON]);
    NeutralScan(arrays, s, [COMMA]);
  }

  lemma {:induction false} PieceScan(arrays: bool, s: State, p: Piece)
    requires s.lex == Inside(false) && s.low <= s.depth <= s.peak && LegalPiece(p)
    ensures Scan(arrays, s, PrintPiece(p)) == s
  {
    var t := PrintPiece(p);
    match p
    case Plain(c) =>
      assert t[1..] == [];
    case Escape(c) =>
      assert t == [BACKSLASH] + [c];
      ScanAppend(arrays, s, [BACKSLASH], [c]);
      OneScan(arrays, s, BACKSLASH);
      OneScan(arrays, Step(arrays, s, BACKSLASH), c);
    case UnicodeEscape(a, b, c, d) =>
      ScanAppend(arrays, s, [BACKSLASH, LOWER_U], [a, b, c, d]);
      assert t == [BACKSLASH, LOWER_U] + [a, b, c, d];
      assert [BACKSLASH, LOWER_U][1..] == [LOWER_U] && [LOWER_U][1..] == [];
      HexScan(arrays, s, [a, b, c, d]);
  }

  lemma {:induction false} HexScan(arrays: bool, s: State, t: Text)
    requires s.lex == Inside(false) && s.low <= s.depth <= s.peak
    requires forall i :: 0 <= i < |t| ==> IsHexDigit(t[i])
    ensures Scan(arrays, s, t) == s
  {
    if t != [] {
      HexScan(arrays, s, t[1..]);
    }
  }

  lemma {:induction false} PiecesScan(arrays: bool, s: State, pieces: seq<Piece>)
    requires s.lex == Inside(false) && s.low <= s.depth <= s.peak && LegalPieces(pieces)
    ensures Scan(arrays, s, PrintPieces(pieces)) == s
  {
    if pieces != [] {
      PieceScan(arrays, s, pieces[0]);
      PiecesScan(arrays, s, pieces[1..]);
      ScanAppend(arrays, s, PrintPiece(pieces[0]), PrintPieces(pieces[1..]));
    }
  }

  /** A string, whatever it contains, leaves the depth alone. */
  lemma {:induction false} StringScan(arrays: bool, s: State, pieces: seq<Piece>)
    requires Settled(s) && LegalPieces(pieces)
    ensures Scan(arrays, s, PrintString(pieces)) == s
  {
    var inside := Step(arrays, s, QUOTE);
    OneScan(arrays, s, QUOTE);
    PiecesScan(arrays, inside, pieces);
    ScanAppend(arrays, s, [QUOTE], PrintPieces(pieces));
    ScanAppend(arrays, s, [QUOTE] + PrintPieces(pieces), [QUOTE]);
    OneScan(arrays, inside, QUOTE);
  }

  lemma {:induction false} OneScan(arrays: bool, s: State, c: Rune)
    ensures Scan(arrays, s, [c]) == Step(arrays, s, c)
  {
    assert [c][1..] == [];
  }

  /** A scan that rose by `height` above its depth on the way. */
  function Raised(s: State, height: nat): State {
    s.(peak := Max(s.peak, s.depth + height))
  }

  lemma {:induction false} ValueScan(arrays: bool, s: State, v: Syntax)
    requires Settled(s) && Legal(v)
    ensures Scan(arrays, s, Print(v)) == Raised(s, Nesting(arrays, v))
    decreases v, 1
  {
    match v
    case ObjectText(members, close) =>
      var inner := Step(arrays, s, LEFT_BRACE);
      MembersScan(arrays, inner, members);
      BodyScan(arrays, s, LEFT_BRACE, PrintMembers(members), close, RIGHT_BRACE, NestingOfMembers(arrays, members));
    case ArrayText(elements, close) =>
      var inner := Step(arrays, s, LEFT_BRACKET);
      ElementsScan(arrays, inner, elements);
      BodyScan(arrays, s, LEFT_BRACKET, PrintElements(elements), close, RIGHT_BRACKET,
          NestingOfElements(arrays, elements));
    case StringText(pieces) => StringScan(arrays, s, pieces);
    case ScalarText(text) => NeutralScan(arrays, s, text);
  }

  lemma {:induction false} BodyScan(arrays: bool, s: State, open: Rune, body: Text, close: Text, end: Rune, height: nat)
    requires Settled(s) && AllBlank(close)
    requires (open == LEFT_BRACE && end == RIGHT_BRACE) || (open == LEFT_BRACKET && end == RIGHT_BRACKET)
    requires Scan(arrays, Step(arrays, s, open), body) == Raised(Step(arrays, s, open), height)
    ensures Scan(arrays, s, [open] + (body + close) + [end])
            == Raised(s, height + if Opens(arrays, open) then 1 else 0)
  {
    var inner := Step(arrays, s, open);
    OneScan(arrays, s, open);
    NeutralScan(arrays, Raised(inner, height), close);
    ScanAppend(arrays, inner, body, close);
    ScanAppend(arrays, s, [open], body + close);
    ScanAppend(arrays, s, [open] + (body + close), [end]);
    OneScan(arrays, Raised(inner, height), end);
  }

  lemma {:induction false} MembersScan(arrays: bool, s: State, ms: MemberTexts)
    requires Settled(s) && LegalMembers(ms)
    ensures Scan(arrays, s, PrintMembers(ms)) == Raised(s, NestingOfMembers(arrays, ms))
    decreases ms, 0
  {
    hide Step, Opens, Closes, Print, PrintString, IsBlank;
    match ms
    case NoMembers =>
    case MemberText(lead, name, beforeColon, afterColon, value, trail, more) =>
      var rest := if more.NoMembers? then [] else [COMMA] + PrintMembers(more);
      var t := Raised(s, Nesting(arrays, value));
      BlanksScan(arrays, s, lead);
      StringScan(arrays, s, name);
      BlanksScan(arrays, s, beforeColon);
      BlanksScan(arrays, s, afterColon);
      ValueScan(arrays, s, value);
      BlanksScan(arrays, t, trail);
      MarksScan(arrays, s);
      MarksScan(arrays, t);
      MembersScan(arrays, t, more);
      ScanAppend(arrays, t, [COMMA], PrintMembers(more));
      ScanAppend(arrays, t, trail, rest);
      ScanAppend(arrays, s, Print(value), trail + rest);
      ScanAppend(arrays, s, afterColon, Print(value) + (trail + rest));
      ScanAppend(arrays, s, [COLON], afterColon + (Print(value) + (trail + rest)));
      ScanAppend(arrays, s, beforeColon, [COLON] + (afterColon + (Print(value) + (trail + rest))));
      ScanAppend(arrays, s, PrintString(name),
          beforeColon + ([COLON] + (afterColon + (Print(value) + (trail + rest)))));
      ScanAppend(arrays, s, lead, PrintString(name)
          + (beforeColon + ([COLON] + (afterColon + (Print(value) + (trail + rest))))));
  }

  lemma {:induction false} ElementsScan(arrays: bool, s: State, es: ElementTexts)
    requires Settled(s) && LegalElements(es)
    ensures Scan(arrays, s, PrintElements(es)) == Raised(s, NestingOfElements(arrays, es))
    decreases es, 0
  {
    hide Step, Opens, Closes, Print, IsBlank;
    match es
    case NoElements =>
    case ElementText(lead, value, trail, more) =>
      var rest := if more.NoElements? then [] else [COMMA] + PrintElements(more);
      var t := Raised(s, Nesting(arrays, value));
      BlanksScan(arrays, s, lead);
      ValueScan(arrays, s, value);
      BlanksScan(arrays, t, trail);
      MarksScan(arrays, t);
      ElementsScan(arrays, t, more);
      ScanAppend(arrays, t, [COMMA], PrintElements(more));
      ScanAppend(arrays, t, trail, rest);
      ScanAppend(arrays, s, Print(value), trail + rest);
      ScanAppend(arrays, s, lead, Print(value) + (trail + rest));
  }

  // ------------------------------------------------------------ cutting out an object

  lemma {:induction false} ScanSnoc(arrays: bool, s: State, t: Text, i: nat)
    requires i < |t|
    ensures Scan(arrays, s, t[..i + 1]) == Step(arrays, Scan(arrays, s, t[..i]), t[i])
  {
    assert t[..i + 1] == t[..i] + [t[i]];
    ScanAppend(arrays, s, t[..i], [t[i]]);
    OneScan(arrays, Scan(arrays, s, t[..i]), t[i]);
  }

  /** The character at `k` is a closing brace outside strings that brings the depth back to zero. */
  predicate ClosesAt(t: Text, k: nat)
    requires k < |t|
  {
    var s := Scan(false, START, t[..k]);
    s.lex == Outside && t[k] == RIGHT_BRACE && s.depth == 1
  }

  function FirstClose(t: Text, from: nat): (k: nat)
    requires from <= |t|
    ensures from <= k <= |t|
    ensures k < |t| ==> ClosesAt(t, k)
    ensures forall j :: from <= j < k ==> !ClosesAt(t, j)
    decreases |t| - from
  {
    if from == |t| || ClosesAt(t, from) then from else FirstClose(t, from + 1)
  }

  function Find(t: Text, c: Rune): (i: nat)
    ensures i <= |t| && (i < |t| ==> t[i] == c) && Lacks(t[..i], c)
  {
    if t == [] || t[0] == c then 0
    else
      assert t[..1 + Find(t[1..], c)] == [t[0]] + t[1..][..Find(t[1..], c)];
      1 + Find(t[1..], c)
  }

  lemma {:induction false} FindAfter(prefix: Text, rest: Text, c: Rune)
    requires Lacks(prefix, c) && rest != [] && rest[0] == c
    ensures Find(prefix + rest, c) == |prefix|
  {
    if prefix != [] {
      FindAfter(prefix[1..], rest, c);
      assert (prefix + rest)[1..] == prefix[1..] + rest;
      assert prefix[0] != c;
    }
  }

  /** The shortest slice from the first brace on whose depth outside strings returns to zero, or
      the whole text when there is none. */
  function Extracted(text: Text): Text {
    var start := Find(text, LEFT_BRACE);
    if start == |text| then text
    else
      var t := text[start..];
      var k := FirstClose(t, 0);
      if k == |t| then text else t[..k + 1]
  }

  method ExtractJsonObjectText(stripped: Text) returns (slice: Text)
    ensures slice == Extracted(stripped)
  {
    hide Scan;
    var start := Find(stripped, LEFT_BRACE);
    if start == |stripped| {
      return stripped;
    }
    ghost var t := stripped[start..];
    var depth, inString, escaped := 0, false, false;
    ScanNothing(false, START);
    assert t[..0] == [];
    for index := start to |stripped|
      invariant inString == Scan(false, START, t[..index - start]).lex.Inside?
      invariant inString ==> escaped == Scan(false, START, t[..index - start]).lex.escaped
      invariant depth == Scan(false, START, t[..index - start]).depth
      invariant !inString ==> !escaped
      invariant FirstClose(t, index - start) == FirstClose(t, 0)
    {
      var c := stripped[index];
      ScanSnoc(false, START, t, index - start);
      if inString {
        if escaped {
          escaped := false;
        } else if c == BACKSLASH {
          escaped := true;
        } else if c == QUOTE {
          inString := false;
        }
        continue;
      }
      if c == QUOTE {
        inString := true;
      } else if c == LEFT_BRACE {
        depth := depth + 1;
      } else if c == RIGHT_BRACE {
        depth := depth - 1;
        if depth == 0 {
          return stripped[start..index + 1];
        }
      }
    }
    return stripped;
  }

  lemma {:induction false} ScanNothing(arrays: bool, s: State)
    ensures Scan(arrays, s, []) == s
  {
  }

  /** Depth and lexical state do not depend on the extremes recorded so far. */
  lemma {:induction false} ScanIgnoresExtremes(s: State, s': State, t: Text)
    requires s.lex == s'.lex && s.depth == s'.depth
    ensures Scan(false, s, t).lex == Scan(false, s', t).lex && Scan(false, s, t).depth == Scan(false, s', t).depth
    decreases |t|
  {
    if t != [] {
      ScanIgnoresExtremes(Step(false, s, t[0]), Step(false, s', t[0]), t[1..]);
    }
  }

  lemma {:induction false} LowOnlyFalls(arrays: bool, s: State, t: Text)
    ensures Scan(arrays, s, t).low <= s.low && s.peak <= Scan(arrays, s, t).peak
    ensures t != [] ==> Scan(arrays, s, t).low <= Scan(arrays, s, t).depth <= Scan(arrays, s, t).peak
    decreases |t|
  {
    if t != [] {
      LowOnlyFalls(arrays, Step(arrays, s, t[0]), t[1..]);
      if |t| == 1 {
        OneScan(arrays, s, t[0]);
        assert t == [t[0]];
      }
    }
  }

  lemma {:induction false} NotClosedInside(v: Syntax, suffix: Text, j: nat)
    requires v.ObjectText? && Legal(v) && j < |Print(v)| - 1
    ensures !ClosesAt(Print(v) + suffix, j)
  {
    hide Scan, Step, Legal;
    var body := PrintMembers(v.members) + v.close;
    var t := Print(v) + suffix;
    assert Print(v) == [LEFT_BRACE] + body + [RIGHT_BRACE];
    if j == 0 {
      assert t[..0] == [];
      ScanNothing(false, START);
    } else {
      var inner := OpenedState();
      assert t[..j] == [LEFT_BRACE] + body[..j - 1];
      ScanAppend(false, START, [LEFT_BRACE], body[..j - 1]);
      BodyStaysOpen(v, j);
      ScanSnoc(false, inner, body, j - 1);
      assert t[j] == body[j - 1];
      var s := Scan(false, inner, body[..j - 1]);
      if s.lex == Outside && t[j] == RIGHT_BRACE {
        OutsideClose(s);
      }
    }
  }

  /** The text of an object closes at its last character and nowhere before. */
  lemma {:induction false} ObjectClosesLast(v: Syntax, suffix: Text)
    requires v.ObjectText? && Legal(v)
    ensures FirstClose(Print(v) + suffix, 0) == |Print(v)| - 1
  {
    hide Scan, Step, FirstClose, Legal;
    var body := PrintMembers(v.members) + v.close;
    var t, n := Print(v) + suffix, |body|;
    assert Print(v) == [LEFT_BRACE] + body + [RIGHT_BRACE];
    assert t[..n + 1] == [LEFT_BRACE] + body;
    var inner := OpenedState();
    ScanAppend(false, START, [LEFT_BRACE], body);
    BodyStaysOpen(v, n);
    assert body[..n] == body;
    assert ClosesAt(t, n + 1);
    forall j | 0 <= j < n + 1 ensures !ClosesAt(t, j) {
      NotClosedInside(v, suffix, j);
    }
    FirstCloseIs(t, 0, n + 1);
  }

  lemma {:induction false} OpenedState() returns (inner: State)
    ensures inner == State(Outside, 1, 1, 0, false) == Scan(false, START, [LEFT_BRACE])
  {
    OneScan(false, START, LEFT_BRACE);
    inner := Step(false, START, LEFT_BRACE);
  }

  lemma {:induction false} OutsideClose(s: State)
    requires s.lex == Outside
    ensures Step(false, s, RIGHT_BRACE).depth == s.depth - 1
  {
  }

  lemma {:induction false} FirstCloseIs(t: Text, from: nat, k: nat)
    requires from <= k < |t| && ClosesAt(t, k) && forall j :: from <= j < k ==> !ClosesAt(t, j)
    ensures FirstClose(t, from) == k
  {
    var f := FirstClose(t, from);
    assert f >= k;
  }

  /** Inside the braces of an object the depth never returns to zero. */
  lemma {:induction false} BodyStaysOpen(v: Syntax, i: nat)
    requires v.ObjectText? && Legal(v) && i <= |PrintMembers(v.members) + v.close|
    ensures var body := PrintMembers(v.members) + v.close;
            var s := Scan(false, State(Outside, 1, 1, 0, false), body[..i]);
            && s.depth >= 1
            && (i == |body| ==> s.lex == Outside && s.depth == 1)
  {
    hide Scan, Step, Print;
    var body := PrintMembers(v.members) + v.close;
    var inner := State(Outside, 1, 1, 1, false);
    var risen := Raised(inner, NestingOfMembers(false, v.members));
    MembersScan(false, inner, v.members);
    BlanksScan(false, risen, v.close);
    ScanAppend(false, inner, PrintMembers(v.members), v.close);
    assert body == body[..i] + body[i..];
    ScanAppend(false, inner, body[..i], body[i..]);
    LowOnlyFalls(false, Scan(false, inner, body[..i]), body[i..]);
    LowOnlyFalls(false, inner, body[..i]);
    ScanIgnoresExtremes(inner, State(Outside, 1, 1, 0, false), body[..i]);
    ScanNothing(false, inner);
    assert i == |body| ==> body[..i] == body;
  }

  /** Out of any answer that holds a printed object behind text without an opening brace, the
      scanner cuts exactly that object, whatever braces, quotes and backslashes its strings
      contain and whatever follows it. */
  lemma {:induction false} ExtractionIsExact(prefix: Text, v: Syntax, suffix: Text)
    requires Lacks(prefix, LEFT_BRACE) && v.ObjectText? && Legal(v)
    ensures Extracted(prefix + Print(v) + suffix) == Print(v)
    ensures Extracted(Strip(prefix + Print(v) + suffix)) == Print(v)
  {
    hide Scan, Legal, Strip;
    CutsObject(prefix, v, suffix);
    var before, after := StripAround(prefix, v, suffix);
    CutsObject(before, v, after);
  }

  lemma {:induction false} CutsObject(prefix: Text, v: Syntax, suffix: Text)
    requires Lacks(prefix, LEFT_BRACE) && v.ObjectText? && Legal(v)
    ensures Extracted(prefix + Print(v) + suffix) == Print(v)
  {
    hide Scan, Legal, Find, FirstClose;
    var text, t := prefix + Print(v) + suffix, Print(v) + suffix;
    ObjectClosesLast(v, suffix);
    assert text == prefix + t;
    FindAfter(prefix, t, LEFT_BRACE);
    var start := |prefix|;
    assert text[start..] == t;
    assert t[..|Print(v)|] == Print(v);
  }

  lemma {:induction false} StripAround(prefix: Text, v: Syntax, suffix: Text) returns (before: Text, after: Text)
    requires Lacks(prefix, LEFT_BRACE) && v.ObjectText?
    ensures Lacks(before, LEFT_BRACE)
    ensures Strip(prefix + Print(v) + suffix) == before + Print(v) + after
  {
    var text, p := prefix + Print(v) + suffix, Print(v);
    assert p[0] == LEFT_BRACE && p[|p| - 1] == RIGHT_BRACE;
    assert !IsSpace(LEFT_BRACE) && !IsSpace(RIGHT_BRACE);
    hide Print, IsSpace;
    LeadingSpacesStop(text, |prefix|);
    before := prefix[LeadingSpaces(text)..];
    var l := before + p + suffix;
    assert LStrip(text) == l;
    RStripStops(l, |before + p| - 1);
    after := RStrip(l)[|before + p|..];
  }

  // ------------------------------------------------------------- bounding the depth

  datatype Verdict = InvalidLimit | TooDeep | Accepted

  /** The guard in front of the decoder; saturating at zero, it judges any text. */
  method BoundJsonDepth(text: Text, maxDepth: int) returns (verdict: Verdict)
    ensures verdict == if maxDepth < 1 then InvalidLimit
                       else if Scan(true, START, text).peak > maxDepth then TooDeep else Accepted
  {
    hide Scan;
    if maxDepth < 1 {
      return InvalidLimit;
    }
    var depth, inString, escaped := 0, false, false;
    ScanNothing(true, START);
    for i := 0 to |text|
      invariant inString == Scan(true, START, text[..i]).lex.Inside?
      invariant inString ==> escaped == Scan(true, START, text[..i]).lex.escaped
      invariant !inString ==> !escaped
      invariant 0 <= depth <= maxDepth && depth == Scan(true, START, text[..i]).depth
      invariant Scan(true, START, text[..i]).peak <= maxDepth
    {
      var c := text[i];
      ScanSnoc(true, START, text, i);
      assert text == text[..i + 1] + text[i + 1..];
      ScanAppend(true, START, text[..i + 1], text[i + 1..]);
      LowOnlyFalls(true, Scan(true, START, text[..i + 1]), text[i + 1..]);
      if inString {
        if escaped {
          escaped := false;
        } else if c == BACKSLASH {
          escaped := true;
        } else if c == QUOTE {
          inString := false;
        }
        continue;
      }
      if c == QUOTE {
        inString := true;
      } else if c == LEFT_BRACE || c == LEFT_BRACKET {
        depth := depth + 1;
        if depth > maxDepth {
          return TooDeep;
        }
      } else if (c == RIGHT_BRACE || c == RIGHT_BRACKET) && depth != 0 {
        depth := depth - 1;
      }
    }
    assert text[..|text|] == text;
    return Accepted;
  }

  /** On a JSON text the guard's counter peaks exactly at the nesting depth of the value and
      never needs to saturate. */
  lemma {:induction false} GuardIsExact(lead: Text, v: Syntax, trail: Text)
    requires Legal(v) && AllBlank(lead) && AllBlank(trail)
    ensures Scan(true, START, lead + Print(v) + trail) == State(Outside, 0, Nesting(true, v), 0, false)
  {
    hide Scan, Legal, IsBlank;
    var risen := Raised(START, Nesting(true, v));
    BlanksScan(true, START, lead);
    ValueScan(true, START, v);
    BlanksScan(true, risen, trail);
    ScanAppend(true, START, lead, Print(v));
    ScanAppend(true, START, lead + Print(v), trail);
  }
}
