/** Decoding raw keys of a `.properties` file to logical keys, and encoding them again. */
module PropertiesKeys {
  import opened Texts
  import opened PropertiesSyntax

  // ------------------------------------------------------------------ boundary

  function LeadingBlanks(t: Text, start: nat): (n: nat)
    requires start <= |t|
    ensures start <= n <= |t|
    decreases |t| - start
  {
    if start < |t| && BlankAt(t, start) then LeadingBlanks(t, start + 1) else start
  }

  function TrailingBlanks(t: Text, start: nat, end: nat): (n: nat)
    requires start <= end <= |t|
    ensures start <= n <= end
    decreases end
  {
    if end > start && BlankAt(t, end - 1) then TrailingBlanks(t, start, end - 1) else end
  }

  function StripBlanks(t: Text): Text {
    var start := LeadingBlanks(t, 0);
    t[start..TrailingBlanks(t, start, |t|)]
  }

  method StripUnescapedBoundaryWhitespace(raw: Text) returns (stripped: Text)
    ensures stripped == StripBlanks(raw)
  {
    var start := 0;
    while start < |raw| && BlankAt(raw, start)
      invariant start <= |raw|
      invariant LeadingBlanks(raw, start) == LeadingBlanks(raw, 0)
    {
      start := start + 1;
    }
    var end := |raw|;
    while end > start && BlankAt(raw, end - 1)
      invariant start <= end <= |raw|
      invariant TrailingBlanks(raw, start, end) == TrailingBlanks(raw, start, |raw|)
    {
      end := end - 1;
    }
    return raw[start..end];
  }

  // ---------------------------------------------------------------- surrogates

  predicate IsHigh(c: Rune) { 0xD800 <= c <= 0xDBFF }

  predicate IsLow(c: Rune) { 0xDC00 <= c <= 0xDFFF }

  predicate PairAt(t: Text, i: nat) {
    i + 1 < |t| && IsHigh(t[i]) && IsLow(t[i + 1])
  }

  function Scalar(high: Rune, low: Rune): (c: Rune)
    requires IsHigh(high) && IsLow(low)
    ensures c >= 0x1_0000
  {
    0x1_0000 + (high - 0xD800) * 0x400 + (low - 0xDC00)
  }

  function CombineFrom(t: Text): Text {
    if t == [] then []
    else if PairAt(t, 0) then [Scalar(t[0], t[1])] + CombineFrom(t[2..])
    else [t[0]] + CombineFrom(t[1..])
  }

  lemma {:induction false} CombineStep(t: Text)
    requires t != []
    ensures PairAt(t, 0) ==> CombineFrom(t) == [Scalar(t[0], t[1])] + CombineFrom(t[2..])
    ensures !PairAt(t, 0) ==> CombineFrom(t) == [t[0]] + CombineFrom(t[1..])
  {
  }

  method CombineSurrogatePairs(value: Text) returns (normalized: Text)
    ensures normalized == CombineFrom(value)
  {
    assert CombineFrom([]) == [];
    hide CombineFrom;
    normalized := [];
    var index := 0;
    while index < |value|
      invariant index <= |value|
      invariant normalized + CombineFrom(value[index..]) == CombineFrom(value)
    {
      ghost var rest := value[index..];
      CombineStep(rest);
      var codepoint := value[index];
      if 0xD800 <= codepoint <= 0xDBFF && index + 1 < |value| {
        var low := value[index + 1];
        if 0xDC00 <= low <= 0xDFFF {
          assert PairAt(rest, 0) && rest[2..] == value[index + 2..];
          normalized := normalized + [0x1_0000 + (codepoint - 0xD800) * 0x400 + (low - 0xDC00)];
          index := index + 2;
          continue;
        }
      }
      assert !PairAt(rest, 0) && rest[1..] == value[index + 1..];
      normalized := normalized + [value[index]];
      index := index + 1;
    }
  }

  predicate PairFree(t: Text) {
    forall i :: 0 <= i < |t| ==> !PairAt(t, i)
  }

  /** Combining leaves text alone exactly when there is nothing to combine. */
  lemma {:induction false} CombineFixpoints(t: Text)
    ensures CombineFrom(t) == t <==> PairFree(t)
  {
    CombineShrinks(t);
    if t != [] {
      if PairAt(t, 0) {
        CombineShrinks(t[2..]);
      } else {
        CombineFixpoints(t[1..]);
        assert CombineFrom(t)[1..] == CombineFrom(t[1..]);
        if PairFree(t[1..]) {
          forall i | 0 <= i < |t| ensures !PairAt(t, i) {
            assert i > 0 ==> !PairAt(t[1..], i - 1);
          }
        }
        if PairFree(t) {
          forall i | 0 <= i < |t[1..]| ensures !PairAt(t[1..], i) {
            assert !PairAt(t, i + 1);
          }
        }
      }
    }
  }

  lemma {:induction false} CombineShrinks(t: Text)
    ensures |CombineFrom(t)| <= |t|
  {
    if t != [] {
      CombineShrinks(if PairAt(t, 0) then t[2..] else t[1..]);
    }
  }

  /** Combining never creates a new pair, so one pass is enough. */
  lemma {:induction false} CombineLeavesNoPair(t: Text)
    ensures PairFree(CombineFrom(t))
    ensures t == [] <==> CombineFrom(t) == []
    ensures t != [] && IsLow(CombineFrom(t)[0]) ==> IsLow(t[0])
  {
    if t != [] {
      var rest := if PairAt(t, 0) then t[2..] else t[1..];
      CombineLeavesNoPair(rest);
      var r, tail := CombineFrom(t), CombineFrom(rest);
      forall i | 0 <= i < |r| ensures !PairAt(r, i) {
        assert i > 0 ==> !PairAt(tail, i - 1);
      }
    }
  }

  // ------------------------------------------------------------------ decoding

  predicate IsHex(c: Rune) {
    0x30 <= c <= 0x39 || 0x41 <= c <= 0x46 || 0x61 <= c <= 0x66
  }

  function HexValue(c: Rune): (v: Rune)
    requires IsHex(c)
    ensures v < 16
  {
    if c <= 0x39 then c - 0x30 else if c <= 0x46 then c - 0x37 else c - 0x57
  }

  function Hex4(a: Rune, b: Rune, c: Rune, d: Rune): (r: Rune)
    requires IsHex(a) && IsHex(b) && IsHex(c) && IsHex(d)
    ensures r < 0x1_0000
  {
    HexValue(a) * 0x1000 + HexValue(b) * 0x100 + HexValue(c) * 0x10 + HexValue(d)
  }

  predicate IsUnicodeEscape(t: Text) {
    |t| >= 6 && t[1] == LOWER_U && IsHex(t[2]) && IsHex(t[3]) && IsHex(t[4]) && IsHex(t[5])
  }

  predicate IsLetterEscape(c: Rune) {
    c == LOWER_T || c == LOWER_N || c == LOWER_R || c == LOWER_F
  }

  function LetterEscape(c: Rune): Rune
    requires IsLetterEscape(c)
  {
    if c == LOWER_T then TAB else if c == LOWER_N then NEWLINE
    else if c == LOWER_R then CARRIAGE_RETURN else FORM_FEED
  }

  datatype Step = Step(emitted: Text, consumed: nat)

  /** What the decoder emits for the head of `t`, and how much of `t` it consumes. */
  function UnescapeStep(t: Text): (s: Step)
    requires t != []
    ensures 0 < s.consumed <= |t|
  {
    if t[0] != BACKSLASH then Step([t[0]], 1)
    else if |t| == 1 then Step([], 1)
    else if IsLetterEscape(t[1]) then Step([LetterEscape(t[1])], 2)
    else if IsUnicodeEscape(t) then Step([Hex4(t[2], t[3], t[4], t[5])], 6)
    else if t[1] == LOWER_U then Step([BACKSLASH, LOWER_U], 2)
    else Step([t[1]], 2)
  }

  function Unescape(t: Text): Text {
    if t == [] then []
    else
      var s := UnescapeStep(t);
      s.emitted + Unescape(t[s.consumed..])
  }

  function UnescapeKey(raw: Text): Text {
    CombineFrom(Unescape(StripBlanks(raw)))
  }

  method DecodeStep(stripped: Text, index: nat) returns (emitted: Text, consumed: nat)
    requires index < |stripped|
    ensures Step(emitted, consumed) == UnescapeStep(stripped[index..])
  {
    ghost var rest := stripped[index..];
    var c := stripped[index];
    if c != BACKSLASH {
      return [c], 1;
    }
    if index + 1 >= |stripped| {
      return [], 1;
    }
    var next := stripped[index + 1];
    assert rest[1] == next;
    if IsLetterEscape(next) {
      return [LetterEscape(next)], 2;
    }
    if next == LOWER_U {
      var digits := stripped[index + 2..if index + 6 <= |stripped| then index + 6 else |stripped|];
      assert |rest| >= 6 ==> rest[2..6] == digits;
      if |digits| == 4 && IsHex(digits[0]) && IsHex(digits[1]) && IsHex(digits[2]) && IsHex(digits[3]) {
        return [Hex4(digits[0], digits[1], digits[2], digits[3])], 6;
      }
      return [BACKSLASH, LOWER_U], 2;
    }
    return [next], 2;
  }

  method DecodeText(stripped: Text) returns (unescaped: Text)
    ensures unescaped == Unescape(stripped)
  {
    hide UnescapeStep;
    unescaped := [];
    var index := 0;
    while index < |stripped|
      invariant index <= |stripped|
      invariant Unescape(stripped) == unescaped + Unescape(stripped[index..])
    {
      var emitted, consumed := DecodeStep(stripped, index);
      UnescapeAdvances(stripped, index);
      unescaped := unescaped + emitted;
      index := index + consumed;
    }
  }

  lemma {:induction false} UnescapeAdvances(t: Text, index: nat)
    requires index < |t|
    ensures var s := UnescapeStep(t[index..]);
            Unescape(t[index..]) == s.emitted + Unescape(t[index + s.consumed..])
  {
    var s := UnescapeStep(t[index..]);
    assert t[index..][s.consumed..] == t[index + s.consumed..];
  }

  method DecodeKey(raw: Text) returns (key: Text)
    ensures key == UnescapeKey(raw)
  {
    var stripped := StripUnescapedBoundaryWhitespace(raw);
    var unescaped := DecodeText(stripped);
    key := CombineSurrogatePairs(unescaped);
  }

  // ------------------------------------------------------------------ encoding

  predicate NeedsEscape(c: Rune) {
    c == BACKSLASH || IsAssign(c) || IsSpace(c)
  }

  function EscapeRune(c: Rune): Text {
    if c == TAB then [BACKSLASH, LOWER_T]
    else if c == NEWLINE then [BACKSLASH, LOWER_N]
    else if c == CARRIAGE_RETURN then [BACKSLASH, LOWER_R]
    else if c == FORM_FEED then [BACKSLASH, LOWER_F]
    else if NeedsEscape(c) then [BACKSLASH, c]
    else [c]
  }

  function EscapeKey(key: Text): Text {
    if key == [] then [] else EscapeRune(key[0]) + EscapeKey(key[1..])
  }

  method EncodeKey(key: Text) returns (escaped: Text)
    ensures escaped == EscapeKey(key)
  {
    hide EscapeRune;
    escaped := [];
    for i := 0 to |key|
      invariant escaped + EscapeKey(key[i..]) == EscapeKey(key)
    {
      assert key[i..][0] == key[i] && key[i..][1..] == key[i + 1..];
      escaped := escaped + EscapeRune(key[i]);
    }
  }

  // ------------------------------------------------------------- the codec laws

  /** A prefix with an even run of trailing backslashes does not affect what follows it. */
  lemma {:induction false} EscapedAfter(a: Text, b: Text, j: nat)
    requires !Dangling(a) && j <= |b|
    ensures IsEscaped(a + b, |a| + j) == IsEscaped(b, j)
  {
    if j == 0 {
      EscapedIsLocal(a, b, |a|);
    } else {
      EscapedAfter(a, b, j - 1);
      EscapedStep(a + b, |a| + j);
      EscapedStep(b, j);
    }
  }

  /** No unescaped separator anywhere, and no dangling backslash. */
  predicate Sealed(t: Text) {
    !Dangling(t) && forall i :: 0 <= i < |t| ==> !SeparatesAt(t, i)
  }

  lemma {:induction false} EscapedRuneIsSealed(c: Rune)
    ensures Sealed(EscapeRune(c))
  {
    var t := EscapeRune(c);
    EscapedStep(t, 1);
    if |t| == 2 {
      EscapedStep(t, 2);
    }
  }

  lemma {:induction false} SealedAppend(a: Text, b: Text)
    requires Sealed(a) && Sealed(b)
    ensures Sealed(a + b)
  {
    var t := a + b;
    EscapedAfter(a, b, |b|);
    forall i | 0 <= i < |t| ensures !SeparatesAt(t, i) {
      if i < |a| {
        EscapedIsLocal(a, b, i);
        assert !SeparatesAt(a, i);
      } else {
        EscapedAfter(a, b, i - |a|);
        assert !SeparatesAt(b, i - |a|);
      }
    }
  }

  /** An escaped key hides every separator it contains. */
  lemma {:induction false} EscapedKeyIsSealed(key: Text)
    ensures Sealed(EscapeKey(key))
  {
    if key != [] {
      EscapedKeyIsSealed(key[1..]);
      EscapedRuneIsSealed(key[0]);
      SealedAppend(EscapeRune(key[0]), EscapeKey(key[1..]));
    }
  }

  lemma {:induction false} SealedHasNoBoundary(t: Text)
    requires Sealed(t)
    ensures StripBlanks(t) == t
  {
    if t != [] {
      assert !SeparatesAt(t, 0) && !SeparatesAt(t, |t| - 1);
    }
  }

  lemma {:induction false} UnescapeInvertsEscape(key: Text)
    ensures Unescape(EscapeKey(key)) == key
  {
    if key != [] {
      UnescapeInvertsEscape(key[1..]);
      var head, tail := EscapeRune(key[0]), EscapeKey(key[1..]);
      var s := UnescapeStep(head + tail);
      assert s == Step([key[0]], |head|);
      assert (head + tail)[|head|..] == tail;
    }
  }

  /** Decoding an encoded key yields the key with its surrogate pairs combined, so the codec
      is lossless exactly on keys that hold no such pair. */
  lemma {:induction false} KeyCodec(key: Text)
    ensures UnescapeKey(EscapeKey(key)) == CombineFrom(key)
    ensures UnescapeKey(EscapeKey(key)) == key <==> PairFree(key)
  {
    EscapedKeyIsSealed(key);
    SealedHasNoBoundary(EscapeKey(key));
    UnescapeInvertsEscape(key);
    CombineFixpoints(key);
  }

  /** Every key the decoder can produce survives encoding and decoding. */
  lemma {:induction false} DecodedKeysRoundTrip(raw: Text)
    ensures UnescapeKey(EscapeKey(UnescapeKey(raw))) == UnescapeKey(raw)
  {
    CombineLeavesNoPair(Unescape(StripBlanks(raw)));
    KeyCodec(UnescapeKey(raw));
  }

  lemma {:induction false} EqualsSeparates()
    ensures SeparatorShape([EQUALS]) && !AllSpace([EQUALS])
  {
    LeadingSpacesIs([EQUALS], 0);
    assert [EQUALS][1..] == [];
    assert !IsSpace([EQUALS][0]);
  }

  /** `escaped key = value` splits at that `=` exactly when the value does not start with
      whitespace the separator group would swallow. */
  lemma {:induction false} EncodedLineSplits(key: Text, value: Text)
    ensures SplitPropertyLine(EscapeKey(key) + [EQUALS] + value) == Some(SplitLine(EscapeKey(key), [EQUALS], value))
            <==> (value != [] ==> !IsSpace(value[0]))
  {
    var s := SplitLine(EscapeKey(key), [EQUALS], value);
    EscapedKeyIsSealed(key);
    EqualsSeparates();
    SplitIsExact(Unsplit(s), s);
  }
}
