/** Text as Python holds it: a sequence of Unicode code points, lone surrogates
    included, together with the string operations the pipeline relies on. */
module Texts {

  newtype Rune = c: int | 0 <= c < 0x11_0000

  type Text = seq<Rune>

  const TAB: Rune := 0x09
  const NEWLINE: Rune := 0x0A
  const FORM_FEED: Rune := 0x0C
  const CARRIAGE_RETURN: Rune := 0x0D
  const SPACE: Rune := 0x20
  const EXCLAMATION: Rune := 0x21
  const QUOTE: Rune := 0x22
  const HASH: Rune := 0x23
  const SLASH: Rune := 0x2F
  const ZERO: Rune := 0x30
  const ONE: Rune := 0x31
  const COLON: Rune := 0x3A
  const EQUALS: Rune := 0x3D
  const BACKSLASH: Rune := 0x5C
  const UNDERSCORE: Rune := 0x5F
  const LOWER_F: Rune := 0x66
  const LOWER_N: Rune := 0x6E
  const LOWER_R: Rune := 0x72
  const LOWER_T: Rune := 0x74
  const LOWER_U: Rune := 0x75
  const TILDE: Rune := 0x7E

  datatype Option<+T> = None | Some(value: T)

  /** The whitespace ranges outside ASCII. */
  const WIDE_SPACES: seq<(Rune, Rune)> := [
    (0x85, 0x85), (0xA0, 0xA0), (0x1680, 0x1680), (0x2000, 0x200A),
    (0x2028, 0x2029), (0x202F, 0x202F), (0x205F, 0x205F), (0x3000, 0x3000)
  ]

  predicate InRanges(c: Rune, ranges: seq<(Rune, Rune)>) {
    ranges != [] && (ranges[0].0 <= c <= ranges[0].1 || InRanges(c, ranges[1..]))
  }

  /** `str.isspace` on one code point. */
  predicate IsSpace(c: Rune) {
    0x09 <= c <= 0x0D || 0x1C <= c <= 0x20 || (c >= 0x85 && InRanges(c, WIDE_SPACES))
  }

  /** The 29 code points that Python counts as whitespace. */
  lemma {:induction false} WhitespaceIs(c: Rune)
    ensures IsSpace(c)
            <==> c in {0x09, 0x0A, 0x0B, 0x0C, 0x0D, 0x1C, 0x1D, 0x1E, 0x1F, 0x20, 0x85, 0xA0, 0x1680, 0x2000, 0x2001,
                       0x2002, 0x2003, 0x2004, 0x2005, 0x2006, 0x2007, 0x2008, 0x2009, 0x200A, 0x2028, 0x2029, 0x202F,
                       0x205F, 0x3000}
  {
    var all := WIDE_SPACES;
    assert |all| == 8;
    InLaterRanges(c, all, 0);
    InLaterRanges(c, all, 1);
    InLaterRanges(c, all, 2);
    InLaterRanges(c, all, 3);
    InLaterRanges(c, all, 4);
    InLaterRanges(c, all, 5);
    InLaterRanges(c, all, 6);
    InLaterRanges(c, all, 7);
    InLaterRanges(c, all, 8);
    assert all[0..] == all;
    hide InRanges;
  }

  lemma {:induction false} InLaterRanges(c: Rune, ranges: seq<(Rune, Rune)>, n: nat)
    requires n <= |ranges|
    ensures InRanges(c, ranges[n..])
            <==> n < |ranges| && (ranges[n].0 <= c <= ranges[n].1 || InRanges(c, ranges[n + 1..]))
  {
    if n < |ranges| { assert ranges[n..][1..] == ranges[n + 1..]; }
  }

  predicate AllSpace(t: Text) {
    forall i :: 0 <= i < |t| ==> IsSpace(t[i])
  }

  /** Length of the leading whitespace run. */
  function LeadingSpaces(t: Text): (n: nat)
    ensures n <= |t|
    ensures AllSpace(t[..n])
    ensures n < |t| ==> !IsSpace(t[n])
  {
    if t != [] && IsSpace(t[0]) then 1 + LeadingSpaces(t[1..]) else 0
  }

  /** `str.lstrip()`. */
  function LStrip(t: Text): (r: Text)
    ensures r == [] || !IsSpace(r[0])
  {
    t[LeadingSpaces(t)..]
  }

  /** `str.rstrip()`. */
  function RStrip(t: Text): (r: Text)
    ensures r <= t
    ensures r == [] || !IsSpace(r[|r| - 1])
    ensures AllSpace(t[|r|..])
  {
    if t != [] && IsSpace(t[|t| - 1]) then RStrip(t[..|t| - 1]) else t
  }

  /** `str.strip()`. */
  function Strip(t: Text): Text {
    RStrip(LStrip(t))
  }

  /** Whether `t` has any non-whitespace code point, the truth value of `t.strip()`. */
  predicate NonBlank(t: Text) {
    Strip(t) != []
  }

  lemma {:induction false} LeadingSpacesIs(t: Text, n: nat)
    requires n <= |t| && AllSpace(t[..n])
    requires n < |t| ==> !IsSpace(t[n])
    ensures LeadingSpaces(t) == n
  {
    if n > 0 {
      assert t[..n][0] == t[0];
      assert t[1..][..n - 1] == t[..n][1..];
      LeadingSpacesIs(t[1..], n - 1);
    }
  }

  lemma {:induction false} LeadingSpacesStop(t: Text, i: nat)
    requires i < |t| && !IsSpace(t[i])
    ensures LeadingSpaces(t) <= i
  {
    if i > 0 {
      LeadingSpacesStop(t[1..], i - 1);
    }
  }

  lemma {:induction false} RStripStops(t: Text, i: nat)
    requires i < |t| && !IsSpace(t[i])
    ensures |RStrip(t)| > i
  {
    if i < |t| - 1 {
      RStripStops(t[..|t| - 1], i);
    }
  }

  /** `str.replace(what, with)`: leftmost occurrences, never overlapping. */
  function Replace(t: Text, what: Text, with: Text): Text
    requires what != []
  {
    if t == [] then []
    else if what <= t then with + Replace(t[|what|..], what, with)
    else [t[0]] + Replace(t[1..], what, with)
  }

  predicate Lacks(t: Text, c: Rune) {
    forall i :: 0 <= i < |t| ==> t[i] != c
  }

  /** Replacing one code point by text without it removes it. */
  lemma {:induction false} ReplaceRemoves(t: Text, c: Rune, with: Text)
    requires Lacks(with, c)
    ensures Lacks(Replace(t, [c], with), c)
  {
    if t != [] {
      ReplaceRemoves(t[1..], c, with);
      if [c] <= t {
        assert Replace(t, [c], with) == with + Replace(t[1..], [c], with);
      } else {
        assert t[0] != c;
      }
    }
  }

  lemma {:induction false} ReplaceAbsent(t: Text, c: Rune, with: Text)
    requires Lacks(t, c)
    ensures Replace(t, [c], with) == t
  {
    if t != [] {
      ReplaceAbsent(t[1..], c, with);
      assert t[0] != c;
    }
  }

  /** Whether `part` occurs in `t` at offset `i`. */
  predicate OccursAt(t: Text, part: Text, i: nat) {
    i + |part| <= |t| && t[i..i + |part|] == part
  }

  /** `part in t`. */
  predicate Contains(t: Text, part: Text) {
    exists i: nat :: i <= |t| && OccursAt(t, part, i)
  }

  function Concat(parts: seq<Text>): Text {
    if parts == [] then [] else parts[0] + Concat(parts[1..])
  }

  lemma {:induction false} ConcatAppend(a: seq<Text>, b: seq<Text>)
    ensures Concat(a + b) == Concat(a) + Concat(b)
  {
    if a == [] {
      assert a + b == b;
    } else {
      assert (a + b)[1..] == a[1..] + b;
      ConcatAppend(a[1..], b);
    }
  }
}
