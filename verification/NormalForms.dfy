/** When two values are the same: they have the same words once line breaks are spelled out. */
module NormalForms {
  import opened Texts
  import opened PropertiesFile
  import opened Normalizing

  // --------------------------------------------------------------------- line breaks

  /** `<newline>` */
  const BREAK: Text := [0x3C, 0x6E, 0x65, 0x77, 0x6C, 0x69, 0x6E, 0x65, 0x3E]

  /** The text with every newline, and every backslash in front of an `n`, spelled as a break. */
  function Spelt(value: Text): Text {
    if value == [] then []
    else if value[0] == 0x0A then BREAK + Spelt(value[1..])
    else if |value| > 1 && value[0] == 0x5C && value[1] == 0x6E then BREAK + Spelt(value[2..])
    else [value[0]] + Spelt(value[1..])
  }

  lemma {:induction false} MarksAreSpelt(value: Text)
    ensures MarkNewlines(value) == Spelt(value)
  {
    hide MarkNewlines;
    if value == [] {
      NothingMarked();
    } else {
      var rest := value[1..];
      assert value == [value[0]] + rest;
      if value[0] == 0x0A {
        MarksAreSpelt(rest);
        MarkedNewline(rest);
      } else if |value| > 1 && value[0] == 0x5C && value[1] == 0x6E {
        MarksAreSpelt(value[2..]);
        assert value == NEWLINE_ESCAPE + value[2..];
        MarkedEscape(value[2..]);
      } else {
        MarksAreSpelt(rest);
        MarkedOther(value[0], rest);
      }
    }
  }

  // --------------------------------------------------------------------------- words

  /** The length of the first word. */
  function WordLength(t: Text): (n: nat)
    ensures n <= |t| && (forall i :: 0 <= i < n ==> !IsSpace(t[i])) && (n < |t| ==> IsSpace(t[n]))
    ensures t != [] && !IsSpace(t[0]) ==> n > 0
  {
    if t == [] || IsSpace(t[0]) then 0 else 1 + WordLength(t[1..])
  }

  /** `t.split()` */
  function Words(t: Text): seq<Text>
    decreases |t|
  {
    if t == [] then []
    else if IsSpace(t[0]) then Words(t[1..])
    else [t[..WordLength(t)]] + Words(t[WordLength(t)..])
  }

  /** `" ".join(words)` */
  function Spaced(words: seq<Text>): Text {
    if words == [] then []
    else if |words| == 1 then words[0]
    else words[0] + [SPACE] + Spaced(words[1..])
  }

  predicate IsWord(t: Text) {
    t != [] && forall i :: 0 <= i < |t| ==> !IsSpace(t[i])
  }

  lemma {:induction false} WordsAreWords(t: Text)
    ensures forall i :: 0 <= i < |Words(t)| ==> IsWord(Words(t)[i])
    ensures Words(t) == [] <==> AllSpace(t)
    decreases |t|
  {
    if t == [] {
    } else if IsSpace(t[0]) {
      WordsAreWords(t[1..]);
      assert AllSpace(t) <==> AllSpace(t[1..]) by { assert t == [t[0]] + t[1..]; }
    } else {
      WordsAreWords(t[WordLength(t)..]);
    }
  }

  lemma {:induction false} WordFirst(word: Text, rest: Text)
    requires IsWord(word) && (rest != [] ==> IsSpace(rest[0]))
    ensures Words(word + rest) == [word] + Words(rest)
  {
    var t := word + rest;
    assert t[0] == word[0];
    var n := WordLength(t);
    assert (forall i :: 0 <= i < |word| ==> !IsSpace(t[i])) && (|word| < |t| ==> IsSpace(t[|word|]));
    assert n == |word| && t[..n] == word && t[n..] == rest;
  }

  lemma {:induction false} SpacesHaveNoWords(spaces: Text, rest: Text)
    requires AllSpace(spaces)
    ensures Words(spaces + rest) == Words(rest)
  {
    if spaces == [] {
      assert spaces + rest == rest;
    } else {
      SpacesHaveNoWords(spaces[1..], rest);
      assert (spaces + rest)[1..] == spaces[1..] + rest;
    }
  }

  /** Words on both sides of whitespace do not touch. */
  lemma {:induction false} WordsApart(a: Text, b: Text)
    requires b != [] ==> IsSpace(b[0])
    ensures Words(a + b) == Words(a) + Words(b)
    decreases |a|
  {
    hide IsSpace, Words;
    if a == [] {
      NoWords();
      assert a + b == b;
    } else if IsSpace(a[0]) {
      WordsApart(a[1..], b);
      assert a == [a[0]] + a[1..] && a + b == [a[0]] + (a[1..] + b);
      SpacesHaveNoWords([a[0]], a[1..]);
      SpacesHaveNoWords([a[0]], a[1..] + b);
    } else {
      var n := WordLength(a);
      var rest := a[n..];
      assert a[..n] + rest == a && a + b == a[..n] + (rest + b);
      WordsApart(rest, b);
      WordFirst(a[..n], rest);
      WordFirst(a[..n], rest + b);
    }
  }

  lemma {:induction false} StrippedWords(t: Text)
    ensures Words(Strip(t)) == Words(t)
  {
    var n := LeadingSpaces(t);
    var l := t[n..];
    assert t == t[..n] + l;
    SpacesHaveNoWords(t[..n], l);
    RStrippedWords(l);
    hide Words;
  }

  lemma {:induction false} RStrippedWords(l: Text)
    ensures Words(RStrip(l)) == Words(l)
  {
    var r, tail := RStrip(l), l[|RStrip(l)|..];
    assert l == r + tail;
    hide RStrip, Words;
    assert tail != [] ==> IsSpace(tail[0]);
    WordsApart(r, tail);
    WordsAreWords(tail);
  }

  // --------------------------------------------------------------- collapsing whitespace

  lemma {:induction false} WordIsCopied(word: Text, rest: Text)
    requires forall i :: 0 <= i < |word| ==> !IsSpace(word[i])
    ensures Collapse(word + rest) == word + Collapse(rest)
  {
    if word == [] {
      assert word + rest == rest;
    } else {
      WordIsCopied(word[1..], rest);
      assert (word + rest)[1..] == word[1..] + rest;
    }
  }

  lemma {:induction false} SpacesCollapse(spaces: Text, rest: Text)
    requires AllSpace(spaces) && spaces != [] && (rest != [] ==> !IsSpace(rest[0]))
    ensures Collapse(spaces + rest) == [SPACE] + Collapse(rest)
  {
    var t := spaces + rest;
    var tail := t[1..];
    assert tail == spaces[1..] + rest && tail[..|spaces| - 1] == spaces[1..];
    LeadingSpacesIs(tail, |spaces| - 1);
    assert t[1 + (|spaces| - 1)..] == rest;
  }

  /** Between solid ends, collapsed text is its words with one space between them. */
  lemma {:induction false} CollapsedIsSpaced(t: Text)
    requires SolidEnds(t)
    ensures Collapse(t) == Spaced(Words(t))
    decreases |t|
  {
    hide Collapse, Words;
    if t == [] {
      NothingToCollapse();
      assert Words(t) == [] by { NoWords(); }
    } else {
      var n := WordLength(t);
      var word, rest := t[..n], t[n..];
      assert t == word + rest;
      WordIsCopied(word, rest);
      WordFirst(word, rest);
      if rest == [] {
        NothingToCollapse();
        assert Words(rest) == [] by { NoWords(); }
      } else {
        var m := LeadingSpaces(rest);
        var more := rest[m..];
        assert rest == rest[..m] + more && rest[|rest| - 1] == t[|t| - 1];
        assert more != [] && SolidEnds(more);
        SpacesCollapse(rest[..m], more);
        SpacesHaveNoWords(rest[..m], more);
        CollapsedIsSpaced(more);
        WordsAreWords(more);
        assert !AllSpace(more) by { assert !IsSpace(more[0]); }
        assert ([word] + Words(more))[1..] == Words(more);
      }
    }
  }

  lemma {:induction false} NoWords()
    ensures Words([]) == []
  {
  }

  /** The normal form of a value: the words of its spelt text with one space between them. */
  lemma {:induction false} NormalFormIsItsWords(value: Text)
    ensures Normalize(value) == Spaced(Words(Spelt(value)))
  {
    MarksAreSpelt(value);
    StripIsSlice(MarkNewlines(value));
    StrippedWords(MarkNewlines(value));
    CollapsedIsSpaced(Strip(MarkNewlines(value)));
    hide MarkNewlines, Strip, Collapse, Words, Spaced;
  }

  lemma {:induction false} WordsOfSpaced(words: seq<Text>)
    requires forall i :: 0 <= i < |words| ==> IsWord(words[i])
    ensures Words(Spaced(words)) == words
  {
    hide Words;
    if words == [] {
      NoWords();
    } else if |words| == 1 {
      assert words[0] + [] == words[0];
      WordFirst(words[0], []);
      NoWords();
    } else {
      WordsOfSpaced(words[1..]);
      var rest := Spaced(words[1..]);
      SpacesHaveNoWords([SPACE], rest);
      WordFirst(words[0], [SPACE] + rest);
      assert Spaced(words) == words[0] + ([SPACE] + rest);
    }
  }

  /** Two values are the same exactly when their spelt texts have the same words. */
  lemma {:induction false} SameExactly(a: Text, b: Text)
    ensures Normalize(a) == Normalize(b) <==> Words(Spelt(a)) == Words(Spelt(b))
  {
    NormalFormIsItsWords(a);
    NormalFormIsItsWords(b);
    WordsAreWords(Spelt(a));
    WordsAreWords(Spelt(b));
    WordsOfSpaced(Words(Spelt(a)));
    WordsOfSpaced(Words(Spelt(b)));
    hide Normalize, Words, Spaced, Spelt;
  }

  /** A value is blank exactly when it has no words. */
  lemma {:induction false} BlankExactly(value: Text)
    ensures NonBlank(value) <==> Words(value) != []
  {
    StrippedWords(value);
    StripIsSlice(value);
    WordsAreWords(Strip(value));
    NoWords();
    hide Words, Strip;
    assert Strip(value) != [] ==> !AllSpace(Strip(value));
  }
}
