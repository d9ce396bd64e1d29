/** Values as the pipeline compares and hashes them. */
module Normalizing {
  import opened Texts
  import opened PropertiesFile

  /** `<newline>` */
  const NEWLINE_MARK: Text := [0x3C, 0x6E, 0x65, 0x77, 0x6C, 0x69, 0x6E, 0x65, 0x3E]

  /** `re.sub(r'\s+', ' ', value)`. */
  function Collapse(t: Text): Text {
    if t == [] then []
    else if IsSpace(t[0]) then [SPACE] + Collapse(t[1 + LeadingSpaces(t[1..])..])
    else [t[0]] + Collapse(t[1..])
  }

  /** Both spellings of a newline become the mark. */
  function MarkNewlines(value: Text): Text {
    Replace(Replace(value, NEWLINE_ESCAPE, NEWLINE_MARK), [NEWLINE], NEWLINE_MARK)
  }

  /** `normalize_value` */
  function Normalize(value: Text): Text {
    Collapse(Strip(MarkNewlines(value)))
  }

  lemma {:induction false} ReplaceStep(t: Text, what: Text, with: Text)
    requires what != [] && t != []
    ensures Replace(t, what, with)
            == if what <= t then with + Replace(t[|what|..], what, with) else [t[0]] + Replace(t[1..], what, with)
  {
  }

  lemma {:induction false} ReplaceNothing(what: Text, with: Text)
    requires what != []
    ensures Replace([], what, with) == []
  {
  }

  lemma {:induction false} ReplaceOneAppend(a: Text, b: Text, c: Rune, with: Text)
    ensures Replace(a + b, [c], with) == Replace(a, [c], with) + Replace(b, [c], with)
  {
    hide Replace;
    ReplaceNothing([c], with);
    if a == [] {
      assert a + b == b;
    } else {
      ReplaceOneAppend(a[1..], b, c, with);
      assert (a + b)[1..] == a[1..] + b && (a + b)[0] == a[0];
      ReplaceStep(a + b, [c], with);
      ReplaceStep(a, [c], with);
      var first := if [c] <= a then with else [a[0]];
      assert [c] <= a + b <==> [c] <= a;
      assert first + (Replace(a[1..], [c], with) + Replace(b, [c], with))
          == first + Replace(a[1..], [c], with) + Replace(b, [c], with);
    }
  }

  lemma {:induction false} MarkedNewline(rest: Text)
    ensures MarkNewlines([NEWLINE] + rest) == NEWLINE_MARK + MarkNewlines(rest)
  {
    var t := [NEWLINE] + rest;
    assert t[1..] == rest && t[0] != NEWLINE_ESCAPE[0];
    hide Replace;
    ReplaceStep(t, NEWLINE_ESCAPE, NEWLINE_MARK);
    var inner := Replace(rest, NEWLINE_ESCAPE, NEWLINE_MARK);
    assert ([NEWLINE] + inner)[1..] == inner;
    ReplaceStep([NEWLINE] + inner, [NEWLINE], NEWLINE_MARK);
  }

  lemma {:induction false} MarkedEscape(rest: Text)
    ensures MarkNewlines(NEWLINE_ESCAPE + rest) == NEWLINE_MARK + MarkNewlines(rest)
  {
    var t := NEWLINE_ESCAPE + rest;
    assert NEWLINE_ESCAPE <= t && t[|NEWLINE_ESCAPE|..] == rest;
    hide Replace;
    ReplaceStep(t, NEWLINE_ESCAPE, NEWLINE_MARK);
    var inner := Replace(rest, NEWLINE_ESCAPE, NEWLINE_MARK);
    ReplaceOneAppend(NEWLINE_MARK, inner, NEWLINE, NEWLINE_MARK);
    assert Lacks(NEWLINE_MARK, NEWLINE);
    ReplaceAbsent(NEWLINE_MARK, NEWLINE, NEWLINE_MARK);
  }

  lemma {:induction false} MarkedOther(c: Rune, rest: Text)
    requires c != NEWLINE && !(NEWLINE_ESCAPE <= [c] + rest)
    ensures MarkNewlines([c] + rest) == [c] + MarkNewlines(rest)
  {
    var t := [c] + rest;
    assert t[1..] == rest;
    hide Replace;
    ReplaceStep(t, NEWLINE_ESCAPE, NEWLINE_MARK);
    var inner := Replace(rest, NEWLINE_ESCAPE, NEWLINE_MARK);
    assert ([c] + inner)[1..] == inner;
    ReplaceStep([c] + inner, [NEWLINE], NEWLINE_MARK);
  }

  lemma {:induction false} EscapedStep(value: Text)
    requires value != []
    ensures EscapeNewlines(value)
            == (if value[0] == NEWLINE then NEWLINE_ESCAPE else [value[0]]) + EscapeNewlines(value[1..])
  {
  }

  /** Writing a newline as its escape does not change the marked text. */
  lemma {:induction false} MarksSurviveEscaping(value: Text)
    ensures MarkNewlines(EscapeNewlines(value)) == MarkNewlines(value)
  {
    hide MarkNewlines, EscapeNewlines;
    if value == [] {
      NothingToEscape();
    } else {
      var rest, written := value[1..], EscapeNewlines(value[1..]);
      assert value == [value[0]] + rest;
      EscapedStep(value);
      MarksSurviveEscaping(rest);
      if value[0] == NEWLINE {
        MarkedNewline(rest);
        MarkedEscape(written);
      } else if NEWLINE_ESCAPE <= value {
        var later := value[2..];
        assert rest == [LOWER_N] + later && rest[1..] == later;
        EscapedStep(rest);
        MarksSurviveEscaping(later);
        assert value == NEWLINE_ESCAPE + later;
        assert EscapeNewlines(value) == NEWLINE_ESCAPE + EscapeNewlines(later);
        MarkedEscape(later);
        MarkedEscape(EscapeNewlines(later));
      } else {
        MarkedOther(value[0], rest);
        EscapeStaysApart(value);
        MarkedOther(value[0], written);
      }
    }
  }

  lemma {:induction false} NothingToEscape()
    ensures EscapeNewlines([]) == []
  {
  }

  lemma {:induction false} EscapeStaysApart(value: Text)
    requires value != [] && value[0] != NEWLINE && !(NEWLINE_ESCAPE <= value)
    ensures !(NEWLINE_ESCAPE <= [value[0]] + EscapeNewlines(value[1..]))
  {
    if |value| > 1 {
      EscapedStep(value[1..]);
      hide EscapeNewlines;
      var t := [value[0]] + EscapeNewlines(value[1..]);
      assert t[1] == if value[1] == NEWLINE then BACKSLASH else value[1];
      assert value[0] == BACKSLASH && value[1] == LOWER_N ==> NEWLINE_ESCAPE <= value;
    } else {
      assert EscapeNewlines([]) == [];
    }
  }

  /** A value compares and hashes the same after it was written to a file and read back. */
  lemma {:induction false} NormalizeSurvivesWriting(value: Text)
    ensures Normalize(EscapeNewlines(value)) == Normalize(value)
  {
    MarksSurviveEscaping(value);
  }

  lemma {:induction false} VisibleStays(value: Text, i: nat, what: Text, with: Text)
    requires what != [] && i < |value| && !IsSpace(value[i]) && !AllSpace(with)
    ensures !AllSpace(Replace(value, what, with))
  {
    if what <= value {
      var k :| 0 <= k < |with| && !IsSpace(with[k]);
      assert Replace(value, what, with)[k] == with[k];
    } else if i == 0 {
      assert Replace(value, what, with)[0] == value[0];
    } else {
      VisibleStays(value[1..], i - 1, what, with);
      var rest := Replace(value[1..], what, with);
      var k :| 0 <= k < |rest| && !IsSpace(rest[k]);
      assert Replace(value, what, with)[k + 1] == rest[k];
    }
  }

  lemma {:induction false} VisibleReplaced(value: Text, what: Text, with: Text)
    requires what != [] && NonBlank(value) && !AllSpace(with)
    ensures NonBlank(Replace(value, what, with))
  {
    var i :| 0 <= i < |value| && !IsSpace(value[i]);
    VisibleStays(value, i, what, with);
  }

  lemma {:induction false} CollapseKeepsText(t: Text)
    requires t != []
    ensures Collapse(t) != []
  {
  }

  /** Only blank text normalizes to nothing. */
  lemma {:induction false} MarkKeepsText(value: Text)
    requires NonBlank(value)
    ensures Normalize(value) != [] && Normalize([]) == []
  {
    assert !IsSpace(NEWLINE_MARK[0]);
    VisibleReplaced(value, NEWLINE_ESCAPE, NEWLINE_MARK);
    VisibleReplaced(Replace(value, NEWLINE_ESCAPE, NEWLINE_MARK), [NEWLINE], NEWLINE_MARK);
    CollapseKeepsText(Strip(MarkNewlines(value)));
    assert Strip([]) == [];
  }

  lemma {:induction false} WritingKeepsText(value: Text)
    requires NonBlank(value)
    ensures NonBlank(EscapeNewlines(value))
  {
    assert !IsSpace(NEWLINE_ESCAPE[0]);
    VisibleReplaced(value, [NEWLINE], NEWLINE_ESCAPE);
  }

  // ------------------------------------------------------------------ canonical values

  /** No newline, and no spelled-out one. */
  predicate NewlineFree(t: Text) {
    Lacks(t, NEWLINE) && forall i :: 0 <= i < |t| - 1 ==> !(t[i] == BACKSLASH && t[i + 1] == LOWER_N)
  }

  /** Whitespace is single spaces. */
  predicate SinglySpaced(t: Text) {
    && (forall i :: 0 <= i < |t| && IsSpace(t[i]) ==> t[i] == SPACE)
    && (forall i :: 0 <= i < |t| - 1 ==> !(IsSpace(t[i]) && IsSpace(t[i + 1])))
  }

  predicate SolidEnds(t: Text) {
    t != [] ==> !IsSpace(t[0]) && !IsSpace(t[|t| - 1])
  }

  predicate Canonical(t: Text) {
    NewlineFree(t) && SinglySpaced(t) && SolidEnds(t)
  }

  lemma {:induction false} NewlineFreeTail(t: Text)
    requires t != []
    ensures NewlineFree(t) <==>
              && NewlineFree(t[1..]) && t[0] != NEWLINE
              && !(|t| > 1 && t[0] == BACKSLASH && t[1] == LOWER_N)
  {
    var rest := t[1..];
    if NewlineFree(rest) && t[0] != NEWLINE && !(|t| > 1 && t[0] == BACKSLASH && t[1] == LOWER_N) {
      forall i | 0 <= i < |t| - 1 ensures !(t[i] == BACKSLASH && t[i + 1] == LOWER_N) {
        if i > 0 { assert rest[i - 1] == t[i] && rest[i] == t[i + 1]; }
      }
      forall i | 0 <= i < |t| ensures t[i] != NEWLINE {
        if i > 0 { assert rest[i - 1] == t[i]; }
      }
    }
    if NewlineFree(t) {
      forall i | 0 <= i < |rest| - 1 ensures !(rest[i] == BACKSLASH && rest[i + 1] == LOWER_N) {
        assert rest[i] == t[i + 1] && rest[i + 1] == t[i + 2];
      }
    }
  }

  lemma {:induction false} SinglySpacedTail(t: Text)
    requires t != []
    ensures SinglySpaced(t) <==>
              && SinglySpaced(t[1..]) && (IsSpace(t[0]) ==> t[0] == SPACE)
              && !(|t| > 1 && IsSpace(t[0]) && IsSpace(t[1]))
  {
    hide IsSpace;
    var rest := t[1..];
    if SinglySpaced(rest) && (IsSpace(t[0]) ==> t[0] == SPACE) && !(|t| > 1 && IsSpace(t[0]) && IsSpace(t[1])) {
      forall i | 0 <= i < |t| - 1 ensures !(IsSpace(t[i]) && IsSpace(t[i + 1])) {
        if i > 0 { assert rest[i - 1] == t[i] && rest[i] == t[i + 1]; }
      }
      forall i | 0 <= i < |t| && IsSpace(t[i]) ensures t[i] == SPACE {
        if i > 0 { assert rest[i - 1] == t[i]; }
      }
    }
    if SinglySpaced(t) {
      forall i | 0 <= i < |rest| - 1 ensures !(IsSpace(rest[i]) && IsSpace(rest[i + 1])) {
        assert rest[i] == t[i + 1] && rest[i + 1] == t[i + 2];
      }
    }
  }

  lemma {:induction false} MarkIsNewlineFree(rest: Text)
    requires NewlineFree(rest)
    ensures NewlineFree(NEWLINE_MARK + rest)
  {
    var t := NEWLINE_MARK + rest;
    assert NEWLINE_MARK[|NEWLINE_MARK| - 1] != BACKSLASH && Lacks(NEWLINE_MARK, BACKSLASH)
           && Lacks(NEWLINE_MARK, NEWLINE);
    forall i | 0 <= i < |t| - 1 ensures !(t[i] == BACKSLASH && t[i + 1] == LOWER_N) {
      if i >= |NEWLINE_MARK| {
        assert t[i] == rest[i - |NEWLINE_MARK|] && t[i + 1] == rest[i + 1 - |NEWLINE_MARK|];
      } else {
        assert t[i] == NEWLINE_MARK[i];
      }
    }
  }

  /** Marking leaves no newline behind, and starts with what the text starts with or with the mark. */
  lemma {:induction false} MarkedIsNewlineFree(value: Text)
    ensures NewlineFree(MarkNewlines(value))
    ensures value == [] ==> MarkNewlines(value) == []
    ensures value != [] ==> MarkNewlines(value) != []
                            && (MarkNewlines(value)[0] == value[0] || MarkNewlines(value)[0] == NEWLINE_MARK[0])
  {
    hide NewlineFree;
    if value == [] {
      NothingMarked();
    } else {
      hide MarkNewlines;
      var rest := value[1..];
      assert value == [value[0]] + rest;
      if value[0] == NEWLINE {
        MarkedIsNewlineFree(rest);
        MarkedNewline(rest);
        MarkIsNewlineFree(MarkNewlines(rest));
      } else if NEWLINE_ESCAPE <= value {
        var later := value[2..];
        assert value == NEWLINE_ESCAPE + later;
        MarkedIsNewlineFree(later);
        MarkedEscape(later);
        MarkIsNewlineFree(MarkNewlines(later));
      } else {
        MarkedIsNewlineFree(rest);
        MarkedOther(value[0], rest);
        var marked := [value[0]] + MarkNewlines(rest);
        assert marked[1..] == MarkNewlines(rest);
        NewlineFreeTail(marked);
        assert |value| > 1 && value[0] == BACKSLASH && value[1] == LOWER_N ==> NEWLINE_ESCAPE <= value;
      }
    }
  }

  lemma {:induction false} NothingMarked()
    ensures MarkNewlines([]) == [] && NewlineFree([])
  {
  }

  lemma {:induction false} NewlineFreeSlice(t: Text, from: nat, to: nat)
    requires NewlineFree(t) && from <= to <= |t|
    ensures NewlineFree(t[from..to])
  {
    var part := t[from..to];
    forall i | 0 <= i < |part| - 1 ensures !(part[i] == BACKSLASH && part[i + 1] == LOWER_N) {
      assert part[i] == t[from + i] && part[i + 1] == t[from + i + 1];
    }
  }

  lemma {:induction false} StripIsSlice(t: Text)
    ensures exists from, to :: 0 <= from <= to <= |t| && Strip(t) == t[from..to]
    ensures SolidEnds(Strip(t))
    ensures SolidEnds(t) ==> Strip(t) == t
  {
    var l := LStrip(t);
    var r := RStrip(l);
    assert Strip(t) == r == t[|t| - |l|..|t| - |l| + |r|];
    if SolidEnds(t) && t != [] {
      LeadingSpacesIs(t, 0);
      assert l == t;
    }
    hide IsSpace;
    assert r != [] ==> r[0] == l[0];
  }

  /** How much of `t` its first collapsed code point stands for. */
  function Skipped(t: Text): (n: nat)
    requires t != []
    ensures 0 < n <= |t|
  {
    if IsSpace(t[0]) then 1 + LeadingSpaces(t[1..]) else 1
  }

  function Collapsed(c: Rune): Rune {
    if IsSpace(c) then SPACE else c
  }

  lemma {:induction false} CollapseStep(t: Text)
    requires t != []
    ensures Collapse(t) == [Collapsed(t[0])] + Collapse(t[Skipped(t)..])
    ensures IsSpace(t[0]) && Skipped(t) < |t| ==> !IsSpace(t[Skipped(t)])
    ensures !IsSpace(t[0]) ==> Skipped(t) == 1
    ensures Skipped(t) == |t| && IsSpace(t[0]) ==> IsSpace(t[|t| - 1])
    ensures SinglySpaced(t) ==> Skipped(t) == 1 && Collapsed(t[0]) == t[0]
  {
    hide IsSpace, SinglySpaced;
    var rest := t[1..];
    assert IsSpace(t[0]) && Skipped(t) < |t| ==> t[Skipped(t)] == rest[LeadingSpaces(rest)];
    if Skipped(t) == |t| { LastSkipped(t, |t|); }
    if SinglySpaced(t) {
      SinglySpacedTail(t);
      if IsSpace(t[0]) && |t| > 1 { LeadingSpacesIs(rest, 0); }
    }
  }

  /** Collapsing keeps text newline-free and its ends, spaces it singly, and changes nothing else. */
  lemma {:induction false} CollapseIsTidy(t: Text)
    requires NewlineFree(t)
    ensures NewlineFree(Collapse(t)) && SinglySpaced(Collapse(t))
    ensures t == [] <==> Collapse(t) == []
    ensures t != [] ==> Collapse(t)[0] == Collapsed(t[0])
    ensures t != [] && !IsSpace(t[|t| - 1]) ==> !IsSpace(Collapse(t)[|Collapse(t)| - 1])
    ensures SinglySpaced(t) ==> Collapse(t) == t
    decreases |t|
  {
    hide *;
    if t == [] {
      NothingToCollapse();
    } else {
      CollapseStep(t);
      var first, rest := Collapsed(t[0]), t[Skipped(t)..];
      NewlineFreeTail(t);
      NewlineFreeSlice(t, Skipped(t), |t|);
      assert rest == t[Skipped(t)..|t|];
      CollapseIsTidy(rest);
      var tidy := Collapse(rest);
      assert ([first] + tidy)[1..] == tidy;
      CollapsedFacts(t[0]);
      if rest != [] { CollapsedFacts(rest[0]); }
      NewlineFreeTail([first] + tidy);
      SinglySpacedTail([first] + tidy);
      if SinglySpaced(t) { SinglySpacedTail(t); }
    }
  }

  lemma {:induction false} CollapsedFacts(c: Rune)
    ensures IsSpace(Collapsed(c)) <==> IsSpace(c)
    ensures IsSpace(Collapsed(c)) ==> Collapsed(c) == SPACE
    ensures Collapsed(c) != NEWLINE && (Collapsed(c) == BACKSLASH ==> c == BACKSLASH && !IsSpace(c))
            && (Collapsed(c) == LOWER_N ==> c == LOWER_N)
  {
  }

  lemma {:induction false} LastSkipped(t: Text, skipped: nat)
    requires t != [] && skipped == |t| && skipped == if IsSpace(t[0]) then 1 + LeadingSpaces(t[1..]) else 1
    ensures IsSpace(t[0]) ==> IsSpace(t[|t| - 1])
  {
    hide IsSpace;
    if IsSpace(t[0]) && |t| > 1 {
      var rest := t[1..];
      assert AllSpace(rest[..LeadingSpaces(rest)]);
      assert rest[..LeadingSpaces(rest)] == rest && rest[|rest| - 1] == t[|t| - 1];
    }
  }

  lemma {:induction false} NothingToCollapse()
    ensures Collapse([]) == [] && NewlineFree([]) && SinglySpaced([])
  {
  }

  lemma {:induction false} NothingToMark(t: Text)
    requires NewlineFree(t)
    ensures MarkNewlines(t) == t
  {
    hide NewlineFree;
    if t == [] {
      NothingMarked();
    } else {
      hide MarkNewlines;
      NewlineFreeTail(t);
      NothingToMark(t[1..]);
      assert t == [t[0]] + t[1..];
      MarkedOther(t[0], t[1..]);
    }
  }

  /** A normalised value has no newline, no spelled-out newline, single spaces and solid ends, and
      the values that normalisation leaves alone are exactly those. */
  lemma {:induction false} NormalizedIsCanonical(value: Text)
    ensures Canonical(Normalize(value))
    ensures Normalize(value) == value <==> Canonical(value)
    ensures Normalize(Normalize(value)) == Normalize(value)
  {
    hide IsSpace, Collapse, Strip, MarkNewlines;
    NormalizesCanonically(value);
    NormalizesCanonically(Normalize(value));
  }

  lemma {:induction false} NormalizesCanonically(value: Text)
    ensures Canonical(Normalize(value))
    ensures Canonical(value) ==> Normalize(value) == value
  {
    hide IsSpace, Collapse, Strip, MarkNewlines, NewlineFree, SinglySpaced;
    var marked := MarkNewlines(value);
    MarkedIsNewlineFree(value);
    StripIsSlice(marked);
    var from, to :| 0 <= from <= to <= |marked| && Strip(marked) == marked[from..to];
    NewlineFreeSlice(marked, from, to);
    CollapseIsTidy(Strip(marked));
    if Canonical(value) {
      NothingToMark(value);
    }
  }
}
