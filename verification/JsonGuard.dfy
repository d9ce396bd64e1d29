/** What the two scanners of JSON text do with any text, balanced or not. */
module JsonGuard {
  import opened Texts
  import opened JsonText
  import opened JsonScan

  // ------------------------------------------------------------------ levels of a text

  datatype Mode = Code | InString | Quoted

  /** Whether a text ends outside a string, in one, or behind a backslash in one. */
  function ModeAfter(t: Text): Mode {
    if t == [] then Code
    else
      var c := t[|t| - 1];
      match ModeAfter(t[..|t| - 1])
      case Code => if c == 0x22 then InString else Code
      case InString => if c == 0x5C then Quoted else if c == 0x22 then Code else InString
      case Quoted => InString
  }

  /** What a character outside strings adds to the level: braces count, brackets only with `arrays`. */
  function Rise(arrays: bool, c: Rune): int {
    if c == 0x7B || (arrays && c == 0x5B) then 1 else if c == 0x7D || (arrays && c == 0x5D) then -1 else 0
  }

  /** Opening less closing characters outside strings. */
  function Level(arrays: bool, t: Text): int {
    if t == [] then 0
    else
      var before := t[..|t| - 1];
      Level(arrays, before) + if ModeAfter(before) == Code then Rise(arrays, t[|t| - 1]) else 0
  }

  predicate Agrees(lex: Lex, mode: Mode) {
    match mode
    case Code => lex == Outside
    case InString => lex == Inside(false)
    case Quoted => lex == Inside(true)
  }

  lemma {:induction false} ModesAgree(arrays: bool, t: Text)
    ensures Agrees(Scan(arrays, START, t).lex, ModeAfter(t))
    ensures !arrays ==> Scan(arrays, START, t).depth == Level(arrays, t)
  {
    hide Scan;
    if t == [] {
      ScanNothing(arrays, START);
    } else {
      var n := |t| - 1;
      ModesAgree(arrays, t[..n]);
      assert t[..n + 1] == t;
      ScanSnoc(arrays, START, t, n);
    }
  }

  // -------------------------------------------------------------------- the depth guard

  /** The level of a prefix. */
  function LevelAt(t: Text, i: nat): int
    requires i <= |t|
  {
    Level(true, t[..i])
  }

  /** The highest rise of a stretch that ends where the text ends, and of any stretch. */
  ghost predicate HighestRise(t: Text, rise: int) {
    && (forall i :: 0 <= i <= |t| ==> LevelAt(t, |t|) - LevelAt(t, i) <= rise)
    && exists i :: 0 <= i <= |t| && LevelAt(t, |t|) - LevelAt(t, i) == rise
  }

  ghost predicate HighestPeak(t: Text, peak: int) {
    && (forall i, j :: 0 <= i <= j <= |t| ==> LevelAt(t, j) - LevelAt(t, i) <= peak)
    && exists i, j :: 0 <= i <= j <= |t| && LevelAt(t, j) - LevelAt(t, i) == peak
  }

  lemma {:induction false} LevelStep(t: Text)
    requires t != []
    ensures var n := |t| - 1;
            LevelAt(t, |t|) == LevelAt(t[..n], n) + if ModeAfter(t[..n]) == Code then Rise(true, t[n]) else 0
    ensures forall i :: 0 <= i < |t| ==> LevelAt(t[..|t| - 1], i) == LevelAt(t, i)
  {
    var n := |t| - 1;
    assert t[..|t|] == t && t[..n][..n] == t[..n];
    forall i | 0 <= i < |t| ensures LevelAt(t[..n], i) == LevelAt(t, i) { assert t[..n][..i] == t[..i]; }
  }

  /** The saturating counter holds the highest rise up to here, and its peak the highest of all. */
  lemma {:induction false} CounterIsHighest(t: Text)
    ensures HighestRise(t, Scan(true, START, t).depth)
    ensures HighestPeak(t, Scan(true, START, t).peak)
  {
    hide Scan, LevelAt;
    if t == [] {
      ScanNothing(true, START);
      assert LevelAt(t, |t|) - LevelAt(t, 0) == 0;
    } else {
      var n := |t| - 1;
      var before, after := Scan(true, START, t[..n]), Scan(true, START, t);
      CounterIsHighest(t[..n]);
      ModesAgree(true, t[..n]);
      assert t[..n + 1] == t;
      ScanSnoc(true, START, t, n);
      LevelStep(t);
      CounterStep(before, after, t[n], if ModeAfter(t[..n]) == Code then Rise(true, t[n]) else 0);
      HighestStep(t, before.depth, before.peak, after.depth, after.peak);
    }
  }

  lemma {:induction false} CounterStep(before: State, after: State, c: Rune, rise: int)
    requires after == Step(true, before, c) && 0 <= before.depth <= before.peak
    requires rise == if before.lex == Outside then Rise(true, c) else 0
    ensures after.depth == (if before.depth + rise < 0 then 0 else before.depth + rise)
    ensures after.peak == Max(before.peak, after.depth)
  {
  }

  lemma {:induction false} HighestStep(t: Text, depth: int, peak: int, depth': int, peak': int)
    requires t != [] && HighestRise(t[..|t| - 1], depth) && HighestPeak(t[..|t| - 1], peak)
    requires var rise := LevelAt(t, |t|) - LevelAt(t, |t| - 1);
             depth' == (if depth + rise < 0 then 0 else depth + rise) && peak' == Max(peak, depth')
    requires forall i :: 0 <= i < |t| ==> LevelAt(t[..|t| - 1], i) == LevelAt(t, i)
    ensures HighestRise(t, depth') && HighestPeak(t, peak')
  {
    hide HighestRise, HighestPeak, LevelAt;
    RiseStep(t, depth, depth');
    PeakStep(t, peak, depth', peak');
  }

  lemma {:induction false} RiseStep(t: Text, depth: int, depth': int)
    requires t != [] && HighestRise(t[..|t| - 1], depth)
    requires var rise := LevelAt(t, |t|) - LevelAt(t, |t| - 1);
             depth' == (if depth + rise < 0 then 0 else depth + rise)
    requires forall i :: 0 <= i < |t| ==> LevelAt(t[..|t| - 1], i) == LevelAt(t, i)
    ensures HighestRise(t, depth')
  {
    hide LevelAt;
    var s, n := t[..|t| - 1], |t| - 1;
    var i :| 0 <= i <= |s| && LevelAt(s, |s|) - LevelAt(s, i) == depth;
    var from := if depth + LevelAt(t, |t|) - LevelAt(t, n) < 0 then |t| else i;
    assert LevelAt(t, |t|) - LevelAt(t, from) == depth';
    forall k | 0 <= k <= |t| ensures LevelAt(t, |t|) - LevelAt(t, k) <= depth' {
      assert k <= n ==> LevelAt(s, |s|) - LevelAt(s, k) <= depth;
    }
  }

  lemma {:induction false} PeakStep(t: Text, peak: int, depth': int, peak': int)
    requires t != [] && HighestPeak(t[..|t| - 1], peak) && HighestRise(t, depth') && peak' == Max(peak, depth')
    requires forall i :: 0 <= i < |t| ==> LevelAt(t[..|t| - 1], i) == LevelAt(t, i)
    ensures HighestPeak(t, peak')
  {
    hide LevelAt;
    var s, n := t[..|t| - 1], |t| - 1;
    var a, b :| 0 <= a <= b <= |s| && LevelAt(s, b) - LevelAt(s, a) == peak;
    assert LevelAt(t, b) - LevelAt(t, a) == peak;
    var i :| 0 <= i <= |t| && LevelAt(t, |t|) - LevelAt(t, i) == depth';
    forall k, j | 0 <= k <= j <= |t| ensures LevelAt(t, j) - LevelAt(t, k) <= peak' {
      assert j <= n ==> LevelAt(s, j) - LevelAt(s, k) <= peak;
    }
  }

  /** The guard rejects a text, balanced or not, exactly when some stretch of it opens more levels
      outside strings than it closes, by more than the limit. */
  lemma {:induction false} GuardOnAnyText(text: Text, maxDepth: int)
    ensures Scan(true, START, text).peak > maxDepth
            <==> exists i, j :: 0 <= i <= j <= |text| && LevelAt(text, j) - LevelAt(text, i) > maxDepth
  {
    CounterIsHighest(text);
    hide Scan, LevelAt;
  }

  // --------------------------------------------------------------------- the extraction

  /** At `k` a brace outside strings brings the level back to zero. */
  predicate Returns(t: Text, k: nat) {
    k < |t| && ModeAfter(t[..k]) == Code && t[k] == 0x7D && Level(false, t[..k + 1]) == 0
  }

  lemma {:induction false} ReturnsWhereItCloses(t: Text, k: nat)
    requires k < |t|
    ensures ClosesAt(t, k) <==> Returns(t, k)
  {
    ModesAgree(false, t[..k]);
    assert t[..k + 1][..k] == t[..k];
    hide Scan;
  }

  /** What is extracted from any text: from its first brace to the first place where the level returns
      to zero outside strings, and the whole text when there is no such brace or place. */
  lemma {:induction false} ExtractedExactly(text: Text, start: nat, k: nat)
    requires start <= |text| && Lacks(text[..start], 0x7B) && (start < |text| ==> text[start] == 0x7B)
    ensures start == |text| ==> Extracted(text) == text
    ensures Returns(text[start..], k) && (forall j: nat :: j < k ==> !Returns(text[start..], j)) ==>
              Extracted(text) == text[start..][..k + 1]
    ensures (forall j: nat :: !Returns(text[start..], j)) ==> Extracted(text) == text
  {
    hide Scan, Returns, ClosesAt;
    var t := text[start..];
    FirstBrace(text, start);
    forall j: nat | j < |t| ensures ClosesAt(t, j) <==> Returns(t, j) { ReturnsWhereItCloses(t, j); }
    if Returns(t, k) && forall j: nat :: j < k ==> !Returns(t, j) {
      ReturnsInside(t, k);
      FirstCloseIs(t, 0, k);
    }
  }

  lemma {:induction false} ReturnsInside(t: Text, k: nat)
    requires Returns(t, k)
    ensures k < |t|
  {
  }

  lemma {:induction false} FirstBrace(text: Text, start: nat)
    requires start <= |text| && Lacks(text[..start], 0x7B) && (start < |text| ==> text[start] == 0x7B)
    ensures Find(text, LEFT_BRACE) == start
  {
    assert text == text[..start] + text[start..];
    if start < |text| {
      FindAfter(text[..start], text[start..], LEFT_BRACE);
    } else {
      assert text[..start] == text;
    }
  }
}
