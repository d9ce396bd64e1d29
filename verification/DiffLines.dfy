/** Reading the key and value of a changed `.properties` line out of a diff. */
module DiffLines {
  import opened Texts
  import opened PropertiesSyntax
  import opened PropertiesKeys
  import opened PropertiesFile

  datatype DiffEntry = DiffEntry(key: Text, value: Text)

  /** First `=` or `:` that an even run of backslashes precedes. */
  function FirstAssign(line: Text, index: nat): (k: nat)
    requires index <= |line|
    ensures index <= k <= |line|
    ensures k < |line| ==> IsAssign(line[k]) && !IsEscaped(line, k)
    decreases |line| - index
  {
    if index == |line| || (IsAssign(line[index]) && !IsEscaped(line, index)) then index
    else FirstAssign(line, index + 1)
  }

  /** `re.sub(r'\\([:=\s])', r'\1', text)`. */
  function DropSeparatorEscapes(t: Text): Text {
    if t == [] then []
    else if t[0] == BACKSLASH && |t| > 1 && (IsAssign(t[1]) || IsSpace(t[1])) then [t[1]] + DropSeparatorEscapes(t[2..])
    else [t[0]] + DropSeparatorEscapes(t[1..])
  }

  function EntryAt(line: Text, k: nat): Option<DiffEntry>
    requires k <= |line|
  {
    if k == |line| then None
    else
      var key := DropSeparatorEscapes(Strip(line[..k]));
      if key == [] then None else Some(DiffEntry(key, Strip(line[k + 1..])))
  }

  /** The scan keeps one flag that each backslash toggles; it finds the same separator as
      counting the backslashes before every position. */
  method ExtractPropertiesEntry(line: Text) returns (entry: Option<DiffEntry>)
    ensures entry == if OpensComment(line) then None else EntryAt(line, FirstAssign(line, 0))
  {
    hide Strip, DropSeparatorEscapes, IsSpace;
    if OpensComment(line) {
      return None;
    }
    var escaped := false;
    for index := 0 to |line|
      invariant escaped == IsEscaped(line, index)
      invariant FirstAssign(line, index) == FirstAssign(line, 0)
    {
      var c := line[index];
      EscapedStep(line, index + 1);
      if c == BACKSLASH {
        escaped := !escaped;
        continue;
      }
      if IsAssign(c) && !escaped {
        var key := DropSeparatorEscapes(Strip(line[..index]));
        if key == [] {
          return None;
        }
        return Some(DiffEntry(key, Strip(line[index + 1..])));
      }
      escaped := false;
    }
    return None;
  }

  predicate OpensComment(line: Text) {
    var stripped := Strip(line);
    stripped == [] || stripped[0] == HASH || stripped[0] == EXCLAMATION
  }

  lemma {:induction false} NoAssignBefore(line: Text, index: nat, k: nat)
    requires index <= k <= |line|
    requires forall j :: index <= j < k ==> !(IsAssign(line[j]) && !IsEscaped(line, j))
    requires k < |line| ==> IsAssign(line[k]) && !IsEscaped(line, k)
    ensures FirstAssign(line, index) == k
    decreases k - index
  {
    if index < k {
      NoAssignBefore(line, index + 1, k);
    }
  }

  lemma {:induction false} KeyHasNoAssign(line: Text)
    ensures forall j :: 0 <= j < FirstSeparator(line, LeadingSpaces(line)) ==>
                          !(IsAssign(line[j]) && !IsEscaped(line, j))
  {
    hide IsSpace;
    var first, k := LeadingSpaces(line), FirstSeparator(line, LeadingSpaces(line));
    forall j | 0 <= j < k ensures !(IsAssign(line[j]) && !IsEscaped(line, j)) {
      if j < first {
        assert line[..first][j] == line[j];
        SpaceIsNoAssign(line[j]);
      } else {
        assert !SeparatesAt(line, j);
      }
    }
  }

  lemma {:induction false} SpaceIsNoAssign(c: Rune)
    requires IsSpace(c)
    ensures !IsAssign(c)
  {
  }

  lemma {:induction false} SeparatorHasItsAssign(line: Text, s: SplitLine)
    requires SplitPropertyLine(line) == Some(s)
    requires LeadingSpaces(s.separator) < |s.separator|
    ensures var at := |s.key| + LeadingSpaces(s.separator);
            && at < |line| && IsAssign(line[at]) && !IsEscaped(line, at)
            && forall j :: |s.key| <= j < at ==> !IsAssign(line[j])
  {
    hide IsSpace, SeparatorEnd, FirstSeparator;
    SplitIsGrammatical(line);
    var k, w := |s.key|, LeadingSpaces(s.separator);
    SeparatorContents(s.separator);
    forall j | k <= j < k + w + 1
      ensures if j < k + w then IsSpace(line[j]) && !IsAssign(line[j]) else IsAssign(line[j])
    {
      assert line[j] == s.separator[j - k];
      if j < k + w {
        SpaceIsNoAssign(line[j]);
      }
    }
    if w > 0 {
      SeparatorsAreUnescaped(line, k, k + w);
    } else {
      assert SeparatesAt(line, k);
    }
  }

  /** The diff reader finds the `=` or `:` of the separator the file parser found, unless that
      separator is whitespace alone. */
  lemma {:induction false} AgreesWithParser(line: Text, s: SplitLine)
    requires SplitPropertyLine(line) == Some(s)
    ensures |s.key| <= FirstAssign(line, 0) < |s.key| + |s.separator| <==> !AllSpace(s.separator)
    ensures !AllSpace(s.separator) ==> FirstAssign(line, 0) == |s.key| + LeadingSpaces(s.separator)
  {
    hide IsSpace, SeparatorEnd, SeparatesAt, IsEscaped;
    var k, w, at := |s.key|, LeadingSpaces(s.separator), FirstAssign(line, 0);
    assert k == FirstSeparator(line, LeadingSpaces(line));
    KeyHasNoAssign(line);
    if w < |s.separator| {
      SeparatorHasItsAssign(line, s);
      NoAssignBefore(line, 0, k + w);
    } else {
      assert s.separator[..w] == s.separator;
      if k <= at < k + |s.separator| {
        assert line[at] == s.separator[at - k];
        SpaceIsNoAssign(line[at]);
      }
    }
  }

  // ------------------------------------------------------- keys as the diff reader sees them

  /** What stays escaped when only separators are unescaped: backslashes and the lettered controls. */
  predicate StaysEscaped(c: Rune) {
    c in {0x5C, 0x09, 0x0A, 0x0D, 0x0C}
  }

  function AsSeen(key: Text): Text {
    if key == [] then []
    else (if StaysEscaped(key[0]) then EscapeRune(key[0]) else [key[0]]) + AsSeen(key[1..])
  }

  lemma {:induction false} EscapedHead(key: Text)
    requires key != []
    ensures EscapeKey(key) != [] && !IsAssign(EscapeKey(key)[0]) && !IsSpace(EscapeKey(key)[0])
    ensures EscapeKey(key)[0] == key[0] || EscapeKey(key)[0] == BACKSLASH
  {
    hide EscapeKey;
    assert EscapeKey(key) == EscapeRune(key[0]) + EscapeKey(key[1..]) by { EscapeCons(key); }
  }

  lemma {:induction false} EscapeCons(key: Text)
    requires key != []
    ensures EscapeKey(key) == EscapeRune(key[0]) + EscapeKey(key[1..])
  {
  }

  lemma {:induction false} DropsFromRune(c: Rune, rest: Text)
    requires rest != [] ==> !IsAssign(rest[0]) && !IsSpace(rest[0])
    ensures DropSeparatorEscapes(EscapeRune(c) + rest)
            == (if StaysEscaped(c) then EscapeRune(c) else [c]) + DropSeparatorEscapes(rest)
  {
    var t := EscapeRune(c) + rest;
    if |EscapeRune(c)| == 1 {
      assert t[1..] == rest;
    } else {
      assert t[2..] == rest && t[1..] == [t[1]] + rest;
      assert t[1..][1..] == rest;
    }
  }

  lemma {:induction false} DropsFromKey(key: Text)
    ensures DropSeparatorEscapes(EscapeKey(key)) == AsSeen(key)
  {
    hide EscapeRune, DropSeparatorEscapes;
    NothingToDrop();
    if key != [] {
      DropsFromKey(key[1..]);
      if key[1..] != [] { EscapedHead(key[1..]); }
      DropsFromRune(key[0], EscapeKey(key[1..]));
    }
  }

  lemma {:induction false} NothingToDrop()
    ensures DropSeparatorEscapes([]) == []
  {
  }

  lemma {:induction false} SeenLength(key: Text)
    ensures |AsSeen(key)| >= |key|
    ensures AsSeen(key) == key <==> forall i :: 0 <= i < |key| ==> !StaysEscaped(key[i])
  {
    if key != [] {
      SeenLength(key[1..]);
    }
  }

  lemma {:induction false} EscapedEnd(key: Text)
    requires key != [] && !IsSpace(key[|key| - 1])
    ensures EscapeKey(key) != [] && !IsSpace(EscapeKey(key)[|EscapeKey(key)| - 1])
  {
    if |key| > 1 {
      EscapedEnd(key[1..]);
    } else {
      assert EscapeKey(key[1..]) == [];
    }
  }

  lemma {:induction false} SolidStays(t: Text)
    requires t != [] && !IsSpace(t[0]) && !IsSpace(t[|t| - 1])
    ensures Strip(t) == t
  {
    LeadingSpacesStop(t, 0);
    assert LStrip(t) == t;
  }

  lemma {:induction false} StripStartsWith(t: Text)
    requires t != [] && !IsSpace(t[0])
    ensures Strip(t) != [] && Strip(t)[0] == t[0]
  {
    LeadingSpacesStop(t, 0);
    assert LStrip(t) == t;
    RStripStops(t, 0);
  }

  lemma {:induction false} AssignBehindKey(raw: Text, value: Text)
    requires Sealed(raw)
    ensures FirstAssign(raw + [EQUALS] + value, 0) == |raw|
  {
    hide IsSpace, IsEscaped;
    var tail := [EQUALS] + value;
    var line := raw + [EQUALS] + value;
    assert raw + tail == line;
    forall j | 0 <= j < |raw| ensures !(IsAssign(line[j]) && !IsEscaped(line, j)) {
      EscapedIsLocal(raw, tail, j);
      assert !SeparatesAt(raw, j);
    }
    EscapedIsLocal(raw, tail, |raw|);
    NoAssignBefore(line, 0, |raw|);
  }

  lemma {:induction false} OpensNoComment(raw: Text, more: Text)
    requires raw != [] && !IsSpace(raw[0]) && raw[0] != HASH && raw[0] != EXCLAMATION
    ensures !OpensComment(raw + more)
  {
    StripStartsWith(raw + more);
    hide Strip;
  }

  /** On a line that the program wrote, the diff reader finds the value and the key as seen through its
      unescaping of separators, which is the key exactly when it holds no backslash and no lettered
      control character; keys that open a comment or end in whitespace aside. */
  lemma {:induction false} WrittenLineInDiff(key: Text, value: Text)
    requires key != [] && !IsSpace(key[|key| - 1]) && key[0] != 0x23 && key[0] != 0x21
    ensures var line := EscapeKey(key) + [EQUALS] + value;
            && !OpensComment(line) && FirstAssign(line, 0) == |EscapeKey(key)|
            && EntryAt(line, FirstAssign(line, 0)) == Some(DiffEntry(AsSeen(key), Strip(value)))
    ensures AsSeen(key) == key <==> forall i :: 0 <= i < |key| ==> key[i] !in {0x5C, 0x09, 0x0A, 0x0D, 0x0C}
  {
    var raw := EscapeKey(key);
    EscapedHead(key);
    EscapedEnd(key);
    SolidStays(raw);
    DropsFromKey(key);
    SeenLength(key);
    EscapedKeyIsSealed(key);
    assert raw[0] != HASH && raw[0] != EXCLAMATION;
    assert raw + ([EQUALS] + value) == raw + [EQUALS] + value;
    hide *;
    AssignBehindKey(raw, value);
    OpensNoComment(raw, [EQUALS] + value);
    EntryBehindKey(raw, value);
  }

  lemma {:induction false} EntryBehindKey(raw: Text, value: Text)
    requires Strip(raw) == raw && DropSeparatorEscapes(raw) != []
    ensures EntryAt(raw + [EQUALS] + value, |raw|) == Some(DiffEntry(DropSeparatorEscapes(raw), Strip(value)))
  {
    hide Strip, DropSeparatorEscapes;
    var line := raw + [EQUALS] + value;
    assert line[..|raw|] == raw && line[|raw| + 1..] == value;
  }

  /** Diff reader and file parser pass over the same lines: blank ones, and those whose first visible
      character is `#` or `!`. */
  lemma {:induction false} SameLinesAreComments(line: Text)
    ensures var n := LeadingSpaces(line); OpensComment(line) <==> n == |line| || line[n] in {0x23, 0x21}
    ensures OpensComment(line) <==> !OpensEntry(line)
  {
    var n := LeadingSpaces(line);
    if n == |line| {
      assert LStrip(line) == [];
    } else {
      StripStartsWith(line[n..]);
      assert line[n..][0] == line[n];
      SkipsToSolid(line, n);
    }
  }

  lemma {:induction false} SkipsToSolid(line: Text, n: nat)
    requires n < |line| && n == LeadingSpaces(line)
    ensures Strip(line) == Strip(line[n..])
  {
    LeadingSpacesStop(line[n..], 0);
    assert LStrip(line) == line[n..] && LStrip(line[n..]) == line[n..];
  }
}
