/** Translation keys of JSON documents: paths written as JSON Pointers (RFC 6901, sections 3 and 4). */
module JsonPointer {
  import opened Texts

  type Path = seq<Text>

  const TILDE_TEXT: Text := [TILDE]
  const SLASH_TEXT: Text := [SLASH]
  const TILDE_ZERO: Text := [TILDE, ZERO]
  const TILDE_ONE: Text := [TILDE, ONE]

  function EscapeSegment(segment: Text): Text {
    Replace(Replace(segment, TILDE_TEXT, TILDE_ZERO), SLASH_TEXT, TILDE_ONE)
  }

  function UnescapeSegment(segment: Text): Text {
    Replace(Replace(segment, TILDE_ONE, SLASH_TEXT), TILDE_ZERO, TILDE_TEXT)
  }

  /** `"/".join(parts)` */
  function Join(parts: seq<Text>): Text {
    if parts == [] then []
    else if |parts| == 1 then parts[0]
    else parts[0] + [SLASH] + Join(parts[1..])
  }

  /** `text.split("/")` */
  function Split(t: Text): (parts: seq<Text>)
    ensures parts != []
  {
    if t == [] then [[]]
    else
      var rest := Split(t[1..]);
      if t[0] == SLASH then [[]] + rest else [[t[0]] + rest[0]] + rest[1..]
  }

  function EscapeAll(path: Path): (r: seq<Text>)
    ensures |r| == |path|
  {
    if path == [] then [] else [EscapeSegment(path[0])] + EscapeAll(path[1..])
  }

  function UnescapeAll(parts: seq<Text>): (r: Path)
    ensures |r| == |parts|
  {
    if parts == [] then [] else [UnescapeSegment(parts[0])] + UnescapeAll(parts[1..])
  }

  function PathToKey(path: Path): Text {
    [SLASH] + Join(EscapeAll(path))
  }

  /** Keys that do not start with a slash are rejected. */
  function KeyToPath(key: Text): Option<Path> {
    if key == [] || key[0] != SLASH then None
    else if key == [SLASH] then Some([[]])
    else Some(UnescapeAll(Split(key[1..])))
  }

  // -------------------------------------------------------------- one segment

  function Block(c: Rune): Text {
    if c == TILDE then TILDE_ZERO else if c == SLASH then TILDE_ONE else [c]
  }

  function HalfBlock(c: Rune): Text {
    if c == TILDE then TILDE_ZERO else [c]
  }

  lemma {:induction false} ReplaceOne(c: Rune, rest: Text, what: Rune, with: Text)
    ensures Replace([c] + rest, [what], with) == (if c == what then with else [c]) + Replace(rest, [what], with)
  {
    var t := [c] + rest;
    assert t[0] == c && t[1..] == rest;
    assert [what] <= t <==> c == what;
  }

  /** Escaping works code point by code point, although it is written as two passes. */
  lemma {:induction false} EscapeCons(c: Rune, rest: Text)
    ensures EscapeSegment([c] + rest) == Block(c) + EscapeSegment(rest)
    ensures Replace([c] + rest, TILDE_TEXT, TILDE_ZERO) == HalfBlock(c) + Replace(rest, TILDE_TEXT, TILDE_ZERO)
  {
    hide Replace;
    var half := Replace(rest, TILDE_TEXT, TILDE_ZERO);
    ReplaceOne(c, rest, TILDE, TILDE_ZERO);
    if c == TILDE {
      ReplaceOne(ZERO, half, SLASH, TILDE_ONE);
      ReplaceOne(TILDE, [ZERO] + half, SLASH, TILDE_ONE);
      assert TILDE_ZERO + half == [TILDE] + ([ZERO] + half);
      assert [TILDE] + ([ZERO] + EscapeSegment(rest)) == TILDE_ZERO + EscapeSegment(rest);
    } else {
      ReplaceOne(c, half, SLASH, TILDE_ONE);
    }
  }

  lemma {:induction false} ReplacePair(t: Text, what: Text, with: Text)
    requires |what| == 2 && t != []
    ensures what <= t ==> Replace(t, what, with) == with + Replace(t[2..], what, with)
    ensures !(what <= t) ==> Replace(t, what, with) == [t[0]] + Replace(t[1..], what, with)
  {
  }

  /** The first unescaping pass undoes the second escaping pass. */
  lemma {:induction false} FirstPass(c: Rune, rest: Text)
    ensures Replace(Block(c) + rest, TILDE_ONE, SLASH_TEXT) == HalfBlock(c) + Replace(rest, TILDE_ONE, SLASH_TEXT)
  {
    hide Replace;
    var t := Block(c) + rest;
    ReplacePair(t, TILDE_ONE, SLASH_TEXT);
    if c == SLASH {
      assert TILDE_ONE <= t && t[2..] == rest;
    } else if c == TILDE {
      assert t[1] == ZERO != TILDE_ONE[1];
      assert t[1..] == [ZERO] + rest;
      ReplacePair([ZERO] + rest, TILDE_ONE, SLASH_TEXT);
      assert ([ZERO] + rest)[0] != TILDE_ONE[0] && ([ZERO] + rest)[1..] == rest;
      assert [TILDE] + ([ZERO] + Replace(rest, TILDE_ONE, SLASH_TEXT)) == HalfBlock(c)
             + Replace(rest, TILDE_ONE, SLASH_TEXT);
    } else {
      assert t[0] != TILDE_ONE[0] && t[1..] == rest;
    }
  }

  lemma {:induction false} SecondPass(c: Rune, rest: Text)
    ensures Replace(HalfBlock(c) + rest, TILDE_ZERO, TILDE_TEXT) == [c] + Replace(rest, TILDE_ZERO, TILDE_TEXT)
  {
    hide Replace;
    var t := HalfBlock(c) + rest;
    ReplacePair(t, TILDE_ZERO, TILDE_TEXT);
    if c == TILDE {
      assert TILDE_ZERO <= t && t[2..] == rest;
    } else {
      assert t[0] != TILDE_ZERO[0] && t[1..] == rest;
    }
  }

  /** Two sequential replacements each way, in opposite orders, lose nothing. */
  lemma {:induction false} SegmentRoundTrip(segment: Text)
    ensures UnescapeSegment(EscapeSegment(segment)) == segment
    ensures Replace(EscapeSegment(segment), TILDE_ONE, SLASH_TEXT) == Replace(segment, TILDE_TEXT, TILDE_ZERO)
    ensures Lacks(EscapeSegment(segment), SLASH)
  {
    hide Replace;
    EmptyReplaces();
    if segment != [] {
      var c, rest := segment[0], segment[1..];
      assert segment == [c] + rest;
      SegmentRoundTrip(rest);
      EscapeCons(c, rest);
      FirstPass(c, EscapeSegment(rest));
      var half := Replace(rest, TILDE_TEXT, TILDE_ZERO);
      SecondPass(c, half);
      assert Replace(EscapeSegment(segment), TILDE_ONE, SLASH_TEXT) == HalfBlock(c) + half;
      assert Replace(half, TILDE_ZERO, TILDE_TEXT) == rest;
    }
  }

  /** Section 3 of RFC 6901: a tilde is written `~0` and a slash `~1`, and nothing else changes. */
  lemma {:induction false} SegmentIsEscaped(c: Rune, rest: Text)
    ensures EscapeSegment([]) == []
    ensures EscapeSegment([c] + rest)
            == (if c == 0x7E then [0x7E, 0x30] else if c == 0x2F then [0x7E, 0x31] else [c]) + EscapeSegment(rest)
  {
    EmptyReplaces();
    EscapeCons(c, rest);
    hide EscapeSegment;
  }

  lemma {:induction false} EmptyReplaces()
    ensures EscapeSegment([]) == [] && UnescapeSegment([]) == []
    ensures Replace([], TILDE_ONE, SLASH_TEXT) == [] && Replace([], TILDE_TEXT, TILDE_ZERO) == []
  {
  }

  // ------------------------------------------------------------- whole paths

  lemma {:induction false} SplitAtSlash(part: Text, more: Text)
    requires Lacks(part, SLASH)
    ensures Split(part) == [part]
    ensures Split(part + [SLASH] + more) == [part] + Split(more)
  {
    var t := part + [SLASH] + more;
    if part == [] {
      assert t[1..] == more;
    } else {
      SplitAtSlash(part[1..], more);
      assert t[1..] == part[1..] + [SLASH] + more;
      assert [part[0]] + part[1..] == part;
    }
  }

  lemma {:induction false} SplitInvertsJoin(parts: seq<Text>)
    requires parts != [] && forall p :: p in parts ==> Lacks(p, SLASH)
    ensures Split(Join(parts)) == parts
  {
    if |parts| > 1 {
      SplitInvertsJoin(parts[1..]);
      SplitAtSlash(parts[0], Join(parts[1..]));
    } else {
      SplitAtSlash(parts[0], []);
    }
  }

  lemma {:induction false} JoinFirst(c: Rune, parts: seq<Text>)
    requires parts != []
    ensures Join([[c] + parts[0]] + parts[1..]) == [c] + Join(parts)
    ensures Join([[]] + parts) == [SLASH] + Join(parts)
  {
    var longer := [[c] + parts[0]] + parts[1..];
    assert longer[1..] == parts[1..] && ([[]] + parts)[1..] == parts;
    hide Split;
    if |parts| > 1 {
      assert [c] + parts[0] + [SLASH] + Join(parts[1..]) == [c] + (parts[0] + [SLASH] + Join(parts[1..]));
    }
  }

  lemma {:induction false} JoinInvertsSplit(t: Text)
    ensures Join(Split(t)) == t
    ensures forall p :: p in Split(t) ==> Lacks(p, SLASH)
  {
    if t != [] {
      JoinInvertsSplit(t[1..]);
      var rest := Split(t[1..]);
      assert rest[0] in rest;
      JoinFirst(t[0], rest);
      hide Join;
      assert [t[0]] + t[1..] == t;
    }
  }

  lemma {:induction false} EscapedPath(path: Path)
    ensures UnescapeAll(EscapeAll(path)) == path
    ensures forall p :: p in EscapeAll(path) ==> Lacks(p, SLASH)
  {
    hide EscapeSegment, UnescapeSegment;
    if path != [] {
      EscapedPath(path[1..]);
      SegmentRoundTrip(path[0]);
      assert EscapeAll(path)[1..] == EscapeAll(path[1..]);
    }
  }

  /** Every path of at least one segment survives, empty segments included; the root's own path
      is the one exception, since its key is that of a single empty segment. */
  lemma {:induction false} PathRoundTrip(path: Path)
    ensures KeyToPath(PathToKey(path)) == Some(path) <==> path != []
  {
    hide Split, EscapeSegment, UnescapeSegment;
    EscapedPath(path);
    if path != [] {
      SplitInvertsJoin(EscapeAll(path));
      assert PathToKey(path)[1..] == Join(EscapeAll(path));
      if PathToKey(path) == [SLASH] {
        assert Join(EscapeAll(path)) == [];
        EmptyJoin(EscapeAll(path));
        EmptyReplaces();
      }
    }
  }

  lemma {:induction false} EmptyJoin(parts: seq<Text>)
    requires parts != [] && Join(parts) == []
    ensures parts == [[]]
  {
  }

  lemma {:induction false} DistinctPathsDistinctKeys(p: Path, q: Path)
    requires p != [] && q != [] && PathToKey(p) == PathToKey(q)
    ensures p == q
  {
    PathRoundTrip(p);
    PathRoundTrip(q);
  }

  // ------------------------------------------------------------ canonical keys

  /** Every tilde introduces one of the two escapes. */
  predicate Canonical(segment: Text) {
    segment != [] ==>
      if segment[0] == TILDE then |segment| > 1 && (segment[1] == ZERO || segment[1] == ONE) && Canonical(segment[2..])
      else Canonical(segment[1..])
  }

  lemma {:induction false} EscapedIsCanonical(segment: Text)
    ensures Canonical(EscapeSegment(segment))
  {
    hide EscapeSegment;
    EmptyReplaces();
    if segment != [] {
      var c, rest := segment[0], segment[1..];
      assert segment == [c] + rest;
      EscapedIsCanonical(rest);
      EscapeCons(c, rest);
      var t := Block(c) + EscapeSegment(rest);
      assert t[|Block(c)|..] == EscapeSegment(rest);
    }
  }

  lemma {:induction false} CanonicalIsEscaped(segment: Text) returns (plain: Text)
    requires Canonical(segment) && Lacks(segment, SLASH)
    ensures EscapeSegment(plain) == segment
  {
    hide EscapeSegment;
    EmptyReplaces();
    if segment == [] {
      plain := [];
    } else if segment[0] == TILDE {
      var rest := CanonicalIsEscaped(segment[2..]);
      var c := if segment[1] == ZERO then TILDE else SLASH;
      EscapeCons(c, rest);
      assert segment == Block(c) + segment[2..];
      plain := [c] + rest;
    } else {
      var rest := CanonicalIsEscaped(segment[1..]);
      EscapeCons(segment[0], rest);
      plain := [segment[0]] + rest;
    }
  }

  lemma {:induction false} SegmentKeyRoundTrip(segment: Text)
    requires Lacks(segment, SLASH)
    ensures EscapeSegment(UnescapeSegment(segment)) == segment <==> Canonical(segment)
  {
    hide EscapeSegment, UnescapeSegment;
    if Canonical(segment) {
      var plain := CanonicalIsEscaped(segment);
      SegmentRoundTrip(plain);
    }
    EscapedIsCanonical(UnescapeSegment(segment));
  }

  lemma {:induction false} PartsRoundTrip(parts: seq<Text>)
    requires forall p :: p in parts ==> Lacks(p, SLASH)
    ensures EscapeAll(UnescapeAll(parts)) == parts <==> forall p :: p in parts ==> Canonical(p)
  {
    hide EscapeSegment, UnescapeSegment, Canonical;
    if parts != [] {
      SegmentKeyRoundTrip(parts[0]);
      PartsRoundTrip(parts[1..]);
      var again := EscapeAll(UnescapeAll(parts));
      assert UnescapeAll(parts)[1..] == UnescapeAll(parts[1..]);
      assert again[0] == EscapeSegment(UnescapeSegment(parts[0])) && again[1..] == EscapeAll(UnescapeAll(parts[1..]));
      assert again == [again[0]] + again[1..] && parts == [parts[0]] + parts[1..];
    }
  }

  /** A key comes back from its path exactly when every tilde in it is a proper escape. */
  lemma {:induction false} KeyRoundTrip(key: Text)
    requires KeyToPath(key).Some?
    ensures PathToKey(KeyToPath(key).value) == key <==> forall p :: p in Split(key[1..]) ==> Canonical(p)
  {
    hide EscapeSegment, UnescapeSegment, Canonical;
    var parts := Split(key[1..]);
    JoinInvertsSplit(key[1..]);
    EmptyUnescapes();
    var path := KeyToPath(key).value;
    if key == [SLASH] {
      assert parts == [[]];
    }
    assert path == UnescapeAll(parts);
    PartsRoundTrip(parts);
    EscapedPath(path);
    assert key == [SLASH] + Join(parts);
    if PathToKey(path) == key {
      assert Join(EscapeAll(path)) == Join(parts);
      SplitInvertsJoin(EscapeAll(path));
      SplitInvertsJoin(parts);
    }
  }

  lemma {:induction false} EmptyUnescapes()
    ensures UnescapeAll([[]]) == [[]] && Canonical([])
  {
    EmptyReplaces();
    assert UnescapeAll([[]][1..]) == [];
  }
}
