/** What the escapes of a raw key stand for, told without the decoder. */
module PropertiesEscapes {
  import opened Texts
  import opened PropertiesSyntax
  import opened PropertiesKeys

  // ------------------------------------------------------------ hexadecimal digits

  /** `d` is the base-16 digit of value `v`, in either case. */
  predicate IsDigitOf(d: Rune, v: int) {
    || (0 <= v < 10 && d as int == 0x30 + v)
    || (10 <= v < 16 && (d as int == 0x61 + v - 10 || d as int == 0x41 + v - 10))
  }

  ghost predicate IsSomeDigit(d: Rune) {
    exists v :: IsDigitOf(d, v)
  }

  /** The four base-16 digits of a UTF-16 code unit. */
  predicate Spells(digits: Text, unit: int) {
    && |digits| == 4
    && IsDigitOf(digits[0], unit / 0x1000) && IsDigitOf(digits[1], unit / 0x100 % 0x10)
    && IsDigitOf(digits[2], unit / 0x10 % 0x10) && IsDigitOf(digits[3], unit % 0x10)
  }

  lemma {:induction false} DigitHasValue(d: Rune, v: int)
    requires IsDigitOf(d, v)
    ensures IsHex(d) && HexValue(d) as int == v
  {
  }

  lemma {:induction false} HexIsDigit(d: Rune)
    ensures IsHex(d) <==> IsSomeDigit(d)
  {
    if IsHex(d) { assert IsDigitOf(d, HexValue(d) as int); }
  }

  lemma {:induction false} FourDigits(unit: int)
    requires 0 <= unit < 0x1_0000
    ensures unit == unit / 0x1000 * 0x1000 + unit / 0x100 % 0x10 * 0x100 + unit / 0x10 % 0x10 * 0x10 + unit % 0x10
  {
    Sixteenths(unit);
    Sixteenths(unit / 0x10);
    Sixteenths(unit / 0x100);
  }

  lemma {:induction false} Sixteenths(v: int)
    requires v >= 0
    ensures v == v / 0x10 * 0x10 + v % 0x10
    ensures v / 0x10 / 0x10 == v / 0x100 && v / 0x100 / 0x10 == v / 0x1000
  {
  }

  /** Four digits are read from the most significant one. */
  lemma {:induction false} SpelledUnit(digits: Text, unit: int)
    requires Spells(digits, unit) && 0 <= unit < 0x1_0000
    ensures IsHex(digits[0]) && IsHex(digits[1]) && IsHex(digits[2]) && IsHex(digits[3])
    ensures Hex4(digits[0], digits[1], digits[2], digits[3]) as int == unit
  {
    DigitHasValue(digits[0], unit / 0x1000);
    DigitHasValue(digits[1], unit / 0x100 % 0x10);
    DigitHasValue(digits[2], unit / 0x10 % 0x10);
    DigitHasValue(digits[3], unit % 0x10);
    FourDigits(unit);
  }

  // ---------------------------------------------------------------- single escapes

  lemma {:induction false} UnescapeHead(head: Text, rest: Text, emitted: Text)
    requires head != [] && UnescapeStep(head + rest) == Step(emitted, |head|)
    ensures Unescape(head + rest) == emitted + Unescape(rest)
  {
    assert (head + rest)[|head|..] == rest;
  }

  /** Letters, every other escaped character, plain characters, and a lone backslash at the end. */
  lemma {:induction false} CharacterEscapes(c: Rune, rest: Text)
    ensures c != BACKSLASH ==> Unescape([c] + rest) == [c] + Unescape(rest)
    ensures c !in {LOWER_T, LOWER_N, LOWER_R, LOWER_F, LOWER_U} ==>
              Unescape([BACKSLASH, c] + rest) == [c] + Unescape(rest)
    ensures Unescape([BACKSLASH, LOWER_T] + rest) == [0x09] + Unescape(rest)
    ensures Unescape([BACKSLASH, LOWER_N] + rest) == [0x0A] + Unescape(rest)
    ensures Unescape([BACKSLASH, LOWER_F] + rest) == [0x0C] + Unescape(rest)
    ensures Unescape([BACKSLASH, LOWER_R] + rest) == [0x0D] + Unescape(rest)
    ensures Unescape([BACKSLASH]) == []
  {
    hide Unescape;
    if c != BACKSLASH { UnescapeHead([c], rest, [c]); }
    if c !in {LOWER_T, LOWER_N, LOWER_R, LOWER_F, LOWER_U} { UnescapeHead([BACKSLASH, c], rest, [c]); }
    UnescapeHead([BACKSLASH, LOWER_T], rest, [0x09]);
    UnescapeHead([BACKSLASH, LOWER_N], rest, [0x0A]);
    UnescapeHead([BACKSLASH, LOWER_F], rest, [0x0C]);
    UnescapeHead([BACKSLASH, LOWER_R], rest, [0x0D]);
    UnescapeHead([BACKSLASH], [], []);
    assert Unescape([]) == [] by { NothingToUnescape(); }
    assert [BACKSLASH] + [] == [BACKSLASH];
  }

  lemma {:induction false} NothingToUnescape()
    ensures Unescape([]) == []
  {
  }

  /** A `\u` escape stands for the code unit its digits spell. */
  lemma {:induction false} UnicodeEscapeDecodes(digits: Text, unit: int, rest: Text)
    requires 0 <= unit < 0x1_0000 && Spells(digits, unit)
    ensures Unescape([BACKSLASH, LOWER_U] + digits + rest) == [unit as Rune] + Unescape(rest)
  {
    hide Unescape, Hex4, Spells;
    SpelledUnit(digits, unit);
    assert |digits| == 4 by { FourLong(digits, unit); }
    var head := [BACKSLASH, LOWER_U] + digits;
    UnescapeHead(head, rest, [unit as Rune]);
  }

  lemma {:induction false} FourLong(digits: Text, unit: int)
    requires Spells(digits, unit)
    ensures |digits| == 4
  {
  }

  /** Without four digits behind it, a `\u` stays as it is spelled. */
  lemma {:induction false} MalformedEscapeStays(rest: Text)
    requires |rest| >= 4 ==> exists i :: 0 <= i < 4 && !IsSomeDigit(rest[i])
    ensures Unescape([BACKSLASH, LOWER_U] + rest) == [BACKSLASH, LOWER_U] + Unescape(rest)
  {
    hide Unescape, IsSomeDigit;
    if |rest| >= 4 {
      var i :| 0 <= i < 4 && !IsSomeDigit(rest[i]);
      HexIsDigit(rest[i]);
      assert ([BACKSLASH, LOWER_U] + rest)[2 + i] == rest[i];
    }
    UnescapeHead([BACKSLASH, LOWER_U], rest, [BACKSLASH, LOWER_U]);
  }

  // -------------------------------------------------------------------- whole keys

  /** The UTF-16 code units of a code point. */
  function Units(c: Rune): seq<int> {
    if c < 0x1_0000 then [c as int]
    else [0xD800 + (c as int - 0x1_0000) / 0x400, 0xDC00 + (c as int - 0x1_0000) % 0x400]
  }

  function Digit(v: int, upper: bool): (d: Rune)
    requires 0 <= v < 16
    ensures IsDigitOf(d, v)
  {
    if v < 10 then 0x30 + v as Rune else (if upper then 0x41 else 0x61) + (v - 10) as Rune
  }

  function Spelled(unit: int, upper: bool): (digits: Text)
    requires 0 <= unit < 0x1_0000
    ensures Spells(digits, unit)
  {
    [Digit(unit / 0x1000, upper), Digit(unit / 0x100 % 0x10, upper), Digit(unit / 0x10 % 0x10, upper),
     Digit(unit % 0x10, upper)]
  }

  function UnicodeEscape(unit: int, upper: bool): Text
    requires 0 <= unit < 0x1_0000
  {
    [BACKSLASH, LOWER_U] + Spelled(unit, upper)
  }

  function EscapedRune(c: Rune, upper: bool): Text {
    var units := Units(c);
    UnicodeEscape(units[0], upper) + if |units| == 2 then UnicodeEscape(units[1], upper) else []
  }

  /** A key with every character spelled as `\u` escapes. */
  function AsciiKey(key: Text, upper: bool): Text {
    if key == [] then [] else EscapedRune(key[0], upper) + AsciiKey(key[1..], upper)
  }

  /** The text of code units that a key is in UTF-16. */
  function UnitText(key: Text): Text {
    if key == [] then []
    else
      var units := Units(key[0]);
      [units[0] as Rune] + (if |units| == 2 then [units[1] as Rune] else []) + UnitText(key[1..])
  }

  lemma {:induction false} EscapedRuneDecodes(c: Rune, upper: bool, rest: Text)
    ensures Unescape(EscapedRune(c, upper) + rest)
            == [Units(c)[0] as Rune] + (if |Units(c)| == 2 then [Units(c)[1] as Rune] else []) + Unescape(rest)
  {
    hide Unescape, Spells;
    var units := Units(c);
    var first := UnicodeEscape(units[0], upper);
    if |units| == 2 {
      var second := UnicodeEscape(units[1], upper);
      UnicodeEscapeDecodes(Spelled(units[1], upper), units[1], rest);
      UnicodeEscapeDecodes(Spelled(units[0], upper), units[0], second + rest);
      assert EscapedRune(c, upper) + rest == first + (second + rest);
    } else {
      UnicodeEscapeDecodes(Spelled(units[0], upper), units[0], rest);
      assert EscapedRune(c, upper) + rest == first + rest;
    }
  }

  lemma {:induction false} AsciiKeyUnescapes(key: Text, upper: bool)
    ensures Unescape(AsciiKey(key, upper)) == UnitText(key)
  {
    hide EscapedRune;
    if key != [] {
      AsciiKeyUnescapes(key[1..], upper);
      EscapedRuneDecodes(key[0], upper, AsciiKey(key[1..], upper));
    }
  }

  /** A pair of units stands for the one code point above the basic plane that has them. */
  lemma {:induction false} PairDecodes(c: Rune, rest: Text)
    requires c >= 0x1_0000
    ensures IsHigh(Units(c)[0] as Rune) && IsLow(Units(c)[1] as Rune)
    ensures CombineFrom([Units(c)[0] as Rune, Units(c)[1] as Rune] + rest) == [c] + CombineFrom(rest)
  {
    var high, low := Units(c)[0] as Rune, Units(c)[1] as Rune;
    CombineStep([high, low] + rest);
    assert ([high, low] + rest)[2..] == rest;
  }

  /** Combining units: what a key is in UTF-16 combines to the key as far as that goes. */
  lemma {:induction false} UnitsCombine(key: Text)
    ensures CombineFrom(UnitText(key)) == CombineFrom(key)
    ensures key != [] ==> UnitText(key) != []
    ensures key != [] && IsLow(UnitText(key)[0]) ==> IsLow(key[0])
    ensures key != [] && IsLow(key[0]) ==> UnitText(key)[0] == key[0]
  {
    hide CombineFrom, UnitText, Units;
    NoUnits();
    if key != [] {
      var c, rest := key[0], key[1..];
      UnitsCombine(rest);
      CombineStep(key);
      UnitStep(key);
      if c >= 0x1_0000 {
        PairDecodes(c, UnitText(rest));
      } else {
        CombineStep(UnitText(key));
        assert UnitText(key)[1..] == UnitText(rest);
        assert |UnitText(key)| > 1 ==> UnitText(key)[1] == UnitText(rest)[0];
        if PairAt(key, 0) {
          UnitsCombine(key[2..]);
          UnitStep(rest);
          assert rest[1..] == key[2..];
          assert UnitText(rest) == [key[1]] + UnitText(key[2..]);
          assert UnitText(key)[2..] == UnitText(key[2..]);
        }
      }
    }
  }

  lemma {:induction false} NoUnits()
    ensures UnitText([]) == []
  {
  }

  lemma {:induction false} UnitStep(key: Text)
    requires key != []
    ensures |Units(key[0])| == if key[0] < 0x1_0000 then 1 else 2
    ensures UnitText(key)
            == (if key[0] < 0x1_0000 then [key[0]] else [Units(key[0])[0] as Rune, Units(key[0])[1] as Rune])
               + UnitText(key[1..])
  {
    var rest := UnitText(key[1..]);
    assert key[0] < 0x1_0000 ==> [key[0]] + [] + rest == [key[0]] + rest;
  }

  lemma {:induction false} AsciiKeyHasNoBlanks(key: Text, upper: bool)
    ensures forall i :: 0 <= i < |AsciiKey(key, upper)| ==> !IsSpace(AsciiKey(key, upper)[i])
  {
    if key != [] {
      AsciiKeyHasNoBlanks(key[1..], upper);
      EscapedRuneHasNoBlanks(key[0], upper);
      hide EscapedRune, IsSpace;
    }
  }

  lemma {:induction false} EscapedRuneHasNoBlanks(c: Rune, upper: bool)
    ensures forall i :: 0 <= i < |EscapedRune(c, upper)| ==> !IsSpace(EscapedRune(c, upper)[i])
  {
  }

  lemma {:induction false} NothingToStrip(t: Text)
    requires forall i :: 0 <= i < |t| ==> !IsSpace(t[i])
    ensures StripBlanks(t) == t
  {
  }

  /** A key spelled in `\u` escapes, in either case, is decoded to the key with its surrogate pairs
      combined, hence to the key if and only if it holds no such pair. */
  lemma {:induction false} AsciiKeyDecodes(key: Text, upper: bool)
    ensures UnescapeKey(AsciiKey(key, upper)) == CombineFrom(key)
    ensures UnescapeKey(AsciiKey(key, upper)) == key <==> PairFree(key)
  {
    hide AsciiKey, StripBlanks, Unescape, CombineFrom, PairFree;
    AsciiKeyHasNoBlanks(key, upper);
    NothingToStrip(AsciiKey(key, upper));
    AsciiKeyUnescapes(key, upper);
    UnitsCombine(key);
    CombineFixpoints(key);
  }

  // ------------------------------------------------------------------ boundary blanks

  /** Stripping takes away blanks only, and all of them: what is left neither starts nor ends with
      whitespace that no backslash protects. */
  lemma {:induction false} StripTakesAllBlanks(t: Text) returns (from: nat, to: nat)
    ensures from <= to <= |t| && StripBlanks(t) == t[from..to]
    ensures forall i :: 0 <= i < from || to <= i < |t| ==> IsSpace(t[i]) && !IsEscaped(t, i)
    ensures from < to ==> !(IsSpace(t[from]) && !IsEscaped(t, from))
                          && !(IsSpace(t[to - 1]) && !IsEscaped(t, to - 1))
  {
    from := LeadingBlanks(t, 0);
    to := TrailingBlanks(t, from, |t|);
    LeadingAreBlank(t, 0);
    TrailingAreBlank(t, from, |t|);
  }

  lemma {:induction false} LeadingAreBlank(t: Text, start: nat)
    requires start <= |t|
    ensures forall i :: start <= i < LeadingBlanks(t, start) ==> IsSpace(t[i]) && !IsEscaped(t, i)
    ensures LeadingBlanks(t, start) < |t| ==> !BlankAt(t, LeadingBlanks(t, start))
    decreases |t| - start
  {
    hide IsSpace, IsEscaped;
    if start < |t| && BlankAt(t, start) { LeadingAreBlank(t, start + 1); }
  }

  lemma {:induction false} TrailingAreBlank(t: Text, start: nat, end: nat)
    requires start <= end <= |t|
    ensures forall i :: TrailingBlanks(t, start, end) <= i < end ==> IsSpace(t[i]) && !IsEscaped(t, i)
    ensures TrailingBlanks(t, start, end) > start ==> !BlankAt(t, TrailingBlanks(t, start, end) - 1)
    decreases end
  {
    hide IsSpace, IsEscaped;
    if end > start && BlankAt(t, end - 1) { TrailingAreBlank(t, start, end - 1); }
  }
}
