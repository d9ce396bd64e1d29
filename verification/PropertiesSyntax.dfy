/** The key, separator and value of one logical line of a `.properties` file. */
module PropertiesSyntax {
  import opened Texts

  datatype SplitLine = SplitLine(key: Text, separator: Text, value: Text)

  // ---------------------------------------------------------------- escaping

  function BackslashesBefore(t: Text, index: nat): (n: nat)
    requires index <= |t|
  {
    if index > 0 && t[index - 1] == BACKSLASH then 1 + BackslashesBefore(t, index - 1) else 0
  }

  predicate IsEscaped(t: Text, index: nat)
    requires index <= |t|
  {
    BackslashesBefore(t, index) % 2 == 1
  }

  /** The text ends in an odd run of backslashes, so the next physical line continues it. */
  predicate Dangling(t: Text) {
    IsEscaped(t, |t|)
  }

  method BackslashCountBefore(t: Text, index: nat) returns (count: nat)
    requires index <= |t|
    ensures count == BackslashesBefore(t, index)
  {
    count := 0;
    var cursor: int := index - 1;
    while cursor >= 0 && t[cursor] == BACKSLASH
      invariant -1 <= cursor < index
      invariant count + BackslashesBefore(t, cursor + 1) == BackslashesBefore(t, index)
    {
      count := count + 1;
      cursor := cursor - 1;
    }
  }

  method HasUnescapedTrailingBackslash(s: Text) returns (dangling: bool)
    ensures dangling <==> Dangling(s)
  {
    if s == [] || s[|s| - 1] != BACKSLASH {
      return false;
    }
    var count := 0;
    var i: int := |s| - 1;
    while i >= 0 && s[i] == BACKSLASH
      invariant -1 <= i < |s|
      invariant count + BackslashesBefore(s, i + 1) == BackslashesBefore(s, |s|)
    {
      count := count + 1;
      i := i - 1;
    }
    return count % 2 == 1;
  }

  lemma {:induction false} EscapedStep(t: Text, index: nat)
    requires 0 < index <= |t|
    ensures IsEscaped(t, index) <==> t[index - 1] == BACKSLASH && !IsEscaped(t, index - 1)
  {
  }

  /** Escaping looks only at what stands before the position. */
  lemma {:induction false} EscapedIsLocal(a: Text, b: Text, index: nat)
    requires index <= |a|
    ensures IsEscaped(a + b, index) == IsEscaped(a, index)
  {
    if index > 0 {
      EscapedIsLocal(a, b, index - 1);
      EscapedStep(a + b, index);
      EscapedStep(a, index);
    }
  }

  // --------------------------------------------------------------- splitting

  predicate IsAssign(c: Rune) {
    c == COLON || c == EQUALS
  }

  predicate SeparatesAt(line: Text, index: nat)
    requires index < |line|
  {
    (IsSpace(line[index]) || IsAssign(line[index])) && !IsEscaped(line, index)
  }

  /** First position from `index` on at which a separator starts. */
  function FirstSeparator(line: Text, index: nat): (k: nat)
    requires index <= |line|
    ensures index <= k <= |line|
    ensures k < |line| ==> SeparatesAt(line, k)
    ensures forall j :: index <= j < k ==> !SeparatesAt(line, j)
    decreases |line| - index
  {
    if index == |line| || SeparatesAt(line, index) then index else FirstSeparator(line, index + 1)
  }

  predicate BlankAt(line: Text, index: nat)
    requires index < |line|
  {
    IsSpace(line[index]) && !IsEscaped(line, index)
  }

  /** First position from `index` on that is no unescaped whitespace. */
  function SkipSpaces(line: Text, index: nat): (k: nat)
    requires index <= |line|
    ensures index <= k <= |line|
    ensures k < |line| ==> !BlankAt(line, k)
    ensures forall j :: index <= j < k ==> BlankAt(line, j)
    decreases |line| - index
  {
    if index < |line| && BlankAt(line, index)
    then SkipSpaces(line, index + 1) else index
  }

  /** End of the separator group that starts at `index`. */
  function SeparatorEnd(line: Text, index: nat): (end: nat)
    requires index < |line|
    ensures index < end <= |line|
  {
    var end := SkipSpaces(line, index + 1);
    if IsSpace(line[index]) && end < |line| && IsAssign(line[end]) && !IsEscaped(line, end)
    then SkipSpaces(line, end + 1) else end
  }

  function SplitPropertyLine(line: Text): Option<SplitLine> {
    var index := FirstSeparator(line, LeadingSpaces(line));
    if index == |line| then None
    else
      var end := SeparatorEnd(line, index);
      Some(SplitLine(line[..index], line[index..end], line[end..]))
  }

  method SkipSpacesFrom(line: Text, start: nat) returns (end: nat)
    requires start <= |line|
    ensures end == SkipSpaces(line, start)
  {
    end := start;
    while end < |line| && BlankAt(line, end)
      invariant start <= end <= |line|
      invariant SkipSpaces(line, end) == SkipSpaces(line, start)
    {
      end := end + 1;
    }
  }

  method ScanPropertyLine(line: Text) returns (split: Option<SplitLine>)
    ensures split == SplitPropertyLine(line)
  {
    hide SkipSpaces, LeadingSpaces, IsEscaped;
    var first := LeadingSpaces(line);
    for index := first to |line|
      invariant FirstSeparator(line, index) == FirstSeparator(line, first)
    {
      if BlankAt(line, index) {
        var end := SkipSpacesFrom(line, index + 1);
        if end < |line| && IsAssign(line[end]) && !IsEscaped(line, end) {
          end := SkipSpacesFrom(line, end + 1);
        }
        return Some(SplitLine(line[..index], line[index..end], line[end..]));
      }
      if IsAssign(line[index]) && !IsEscaped(line, index) {
        var end := SkipSpacesFrom(line, index + 1);
        return Some(SplitLine(line[..index], line[index..end], line[end..]));
      }
    }
    return None;
  }

  // -------------------------------------------------- the grammar it accepts

  /** A raw key: no unescaped separator after its indentation, and no dangling backslash. */
  predicate KeyShape(key: Text) {
    && !Dangling(key)
    && forall i :: LeadingSpaces(key) <= i < |key| ==> !SeparatesAt(key, i)
  }

  /** Whitespace, at most one `=` or `:`, whitespace; never empty. */
  predicate SeparatorShape(separator: Text) {
    var w := LeadingSpaces(separator);
    && separator != []
    && (w < |separator| ==> IsAssign(separator[w]) && AllSpace(separator[w + 1..]))
  }

  /** A key of whitespace only is read as indentation unless `=` or `:` follows at once. */
  predicate SeparatorFits(key: Text, separator: Text)
    requires separator != []
  {
    AllSpace(key) ==> IsAssign(separator[0])
  }

  /** The value does not start with something the separator group would absorb. */
  predicate ValueFits(separator: Text, value: Text) {
    value != [] ==> !IsSpace(value[0]) && (AllSpace(separator) ==> !IsAssign(value[0]))
  }

  predicate Grammatical(s: SplitLine) {
    && KeyShape(s.key)
    && SeparatorShape(s.separator)
    && SeparatorFits(s.key, s.separator)
    && ValueFits(s.separator, s.value)
  }

  function Unsplit(s: SplitLine): Text {
    s.key + s.separator + s.value
  }

  /** Inside and right after a separator group nothing is escaped. */
  lemma {:induction false} SeparatorsAreUnescaped(line: Text, from: nat, to: nat)
    requires from < to <= |line|
    requires forall j :: from <= j < to ==> IsSpace(line[j]) || IsAssign(line[j])
    ensures forall j :: from < j <= to ==> !IsEscaped(line, j)
  {
    forall j | from < j <= to ensures !IsEscaped(line, j) {
      EscapedStep(line, j);
    }
  }

  lemma {:induction false} KeyEndsAtSeparator(s: SplitLine)
    requires KeyShape(s.key) && SeparatorShape(s.separator) && SeparatorFits(s.key, s.separator)
    ensures FirstSeparator(Unsplit(s), LeadingSpaces(Unsplit(s))) == |s.key|
  {
    var k, rest := |s.key|, s.separator + s.value;
    var line := s.key + rest;
    assert line == Unsplit(s);
    var first := LeadingSpaces(s.key);
    assert line[..first] == s.key[..first];
    LeadingSpacesIs(line, first);
    forall i | first <= i < k ensures !SeparatesAt(line, i) {
      EscapedIsLocal(s.key, rest, i);
      assert !SeparatesAt(s.key, i);
    }
    SeparatorContents(s.separator);
    EscapedIsLocal(s.key, rest, k);
    assert SeparatesAt(line, k);
  }

  lemma {:induction false} SeparatorContents(separator: Text)
    requires SeparatorShape(separator)
    ensures forall j :: 0 <= j < |separator| ==>
              if j == LeadingSpaces(separator) then IsAssign(separator[j]) else IsSpace(separator[j])
  {
    var w := LeadingSpaces(separator);
    forall j | 0 <= j < |separator| && j != w ensures IsSpace(separator[j]) {
      if j < w {
        assert separator[..w][j] == separator[j];
      } else {
        assert separator[w + 1..][j - (w + 1)] == separator[j];
      }
    }
  }

  lemma {:induction false} SeparatorEndsAtValue(s: SplitLine)
    requires SeparatorShape(s.separator) && ValueFits(s.separator, s.value)
    ensures SeparatorEnd(Unsplit(s), |s.key|) == |s.key| + |s.separator|
  {
    var line, k, w, n := Unsplit(s), |s.key|, LeadingSpaces(s.separator), |s.separator|;
    SeparatorContents(s.separator);
    assert forall j :: 0 <= j < n ==> line[k + j] == s.separator[j];
    forall j | k <= j < k + n
      ensures if j == k + w then IsAssign(line[j]) else IsSpace(line[j])
    {
      assert line[j] == s.separator[j - k];
    }
    SeparatorsAreUnescaped(line, k, k + n);
    assert k + n < |line| ==> line[k + n] == s.value[0];
    if 0 < w < n {
      SkipSpacesIs(line, k + 1, k + w);
      SkipSpacesIs(line, k + w + 1, k + n);
    } else {
      SkipSpacesIs(line, k + 1, k + n);
    }
  }

  lemma {:induction false} SkipSpacesIs(line: Text, index: nat, end: nat)
    requires index <= end <= |line|
    requires forall j :: index <= j < end ==> IsSpace(line[j]) && !IsEscaped(line, j)
    requires end < |line| ==> !IsSpace(line[end]) || IsEscaped(line, end)
    ensures SkipSpaces(line, index) == end
  {
    var k := SkipSpaces(line, index);
    assert end < k ==> BlankAt(line, end);
  }

  lemma {:induction false} SkippedAreSpaces(line: Text, index: nat)
    requires index <= |line|
    ensures forall j :: index <= j < SkipSpaces(line, index) ==> IsSpace(line[j])
  {
    forall j | index <= j < SkipSpaces(line, index) ensures IsSpace(line[j]) {
      assert BlankAt(line, j);
    }
  }

  lemma {:induction false} KeyIsShaped(line: Text, index: nat)
    requires LeadingSpaces(line) <= index <= |line| && !IsEscaped(line, index)
    requires forall i :: LeadingSpaces(line) <= i < index ==> !SeparatesAt(line, i)
    ensures KeyShape(line[..index]) && LeadingSpaces(line[..index]) == LeadingSpaces(line)
  {
    var first, key, rest := LeadingSpaces(line), line[..index], line[index..];
    assert line == key + rest;
    assert key[..first] == line[..first];
    LeadingSpacesIs(key, first);
    EscapedIsLocal(key, rest, index);
    forall i | first <= i < index ensures !SeparatesAt(key, i) {
      EscapedIsLocal(key, rest, i);
      assert !SeparatesAt(line, i);
    }
  }

  lemma {:induction false} SplitIsGrammatical(line: Text)
    requires SplitPropertyLine(line).Some?
    ensures Grammatical(SplitPropertyLine(line).value)
    ensures Unsplit(SplitPropertyLine(line).value) == line
  {
    var index := FirstSeparator(line, LeadingSpaces(line));
    var end := SeparatorEnd(line, index);
    KeyIsShaped(line, index);
    SeparatorIsShaped(line, index);
    ValueFitsAfterSeparator(line, index);
    IndentationNeedsAssign(line, index);
    hide IsEscaped, SkipSpaces, SeparatorEnd, AllSpace, IsSpace, LeadingSpaces, KeyShape, SeparatorShape, ValueFits,
      SeparatesAt;
    assert line[index..end][0] == line[index];
    assert line[..index] + line[index..end] + line[end..] == line;
  }

  /** A separator right after the indentation of a line is not whitespace. */
  lemma {:induction false} IndentationNeedsAssign(line: Text, index: nat)
    requires LeadingSpaces(line) <= index < |line| && SeparatesAt(line, index)
    ensures AllSpace(line[..index]) ==> IsAssign(line[index])
  {
    hide IsEscaped;
    var first := LeadingSpaces(line);
    if first < index {
      assert line[..index][first] == line[first];
    }
  }

  lemma {:induction false} SeparatorFromParts(separator: Text, w: nat)
    requires separator != [] && w <= |separator| && AllSpace(separator[..w])
    requires w < |separator| ==> IsAssign(separator[w]) && AllSpace(separator[w + 1..])
    ensures SeparatorShape(separator)
  {
    LeadingSpacesIs(separator, w);
  }

  lemma {:induction false} SkippedSlice(line: Text, index: nat)
    requires index <= |line|
    ensures index <= SkipSpaces(line, index) <= |line| && AllSpace(line[index..SkipSpaces(line, index)])
  {
    SkippedAreSpaces(line, index);
    hide IsSpace;
  }

  lemma {:induction false} SpaceThenSpaces(line: Text, index: nat, end: nat)
    requires index < end <= |line| && IsSpace(line[index]) && AllSpace(line[index + 1..end])
    ensures AllSpace(line[index..end])
  {
    hide IsSpace;
    assert line[index..end] == [line[index]] + line[index + 1..end];
  }

  lemma {:induction false} SeparatorIsShaped(line: Text, index: nat)
    requires index < |line| && SeparatesAt(line, index)
    ensures SeparatorShape(line[index..SeparatorEnd(line, index)])
  {
    var middle, end := SkipSpaces(line, index + 1), SeparatorEnd(line, index);
    var sep := line[index..end];
    SkippedSlice(line, index + 1);
    hide SkipSpaces, SeparatorShape, IsSpace, AllSpace;
    if !IsSpace(line[index]) {
      NoSpaces();
      assert sep[..0] == [] && sep[1..] == line[index + 1..middle];
      SeparatorFromParts(sep, 0);
    } else if middle == end {
      SpaceThenSpaces(line, index, middle);
      assert sep[..|sep|] == line[index..middle];
      SeparatorFromParts(sep, |sep|);
    } else {
      SpaceThenSpaces(line, index, middle);
      SkippedSlice(line, middle + 1);
      var w := middle - index;
      assert sep[..w] == line[index..middle] && sep[w + 1..] == line[middle + 1..end];
      SeparatorFromParts(sep, w);
    }
  }

  lemma {:induction false} NoSpaces()
    ensures AllSpace([])
  {
  }

  lemma {:induction false} ValueFitsAfterSeparator(line: Text, index: nat)
    requires index < |line| && SeparatesAt(line, index)
    ensures ValueFits(line[index..SeparatorEnd(line, index)], line[SeparatorEnd(line, index)..])
  {
    var middle, end := SkipSpaces(line, index + 1), SeparatorEnd(line, index);
    var sep := line[index..end];
    SkippedAreSpaces(line, index + 1);
    if middle < end {
      SkippedAreSpaces(line, middle + 1);
      assert IsAssign(sep[middle - index]);
    } else if !IsSpace(line[index]) {
      assert IsAssign(sep[0]);
    }
    SeparatorsAreUnescaped(line, index, end);
    assert end < |line| ==> !BlankAt(line, end);
  }

  lemma {:induction false} GrammaticalSplits(s: SplitLine)
    requires Grammatical(s)
    ensures SplitPropertyLine(Unsplit(s)) == Some(s)
  {
    var line, k, end := Unsplit(s), |s.key|, |s.key| + |s.separator|;
    KeyEndsAtSeparator(s);
    SeparatorEndsAtValue(s);
    assert line[..k] == s.key && line[k..end] == s.separator && line[end..] == s.value;
  }

  /** The scanner is exact: it returns precisely the one decomposition the grammar admits. */
  lemma {:induction false} SplitIsExact(line: Text, s: SplitLine)
    ensures SplitPropertyLine(line) == Some(s) <==> line == Unsplit(s) && Grammatical(s)
  {
    if SplitPropertyLine(line) == Some(s) {
      SplitIsGrammatical(line);
    } else if line == Unsplit(s) && Grammatical(s) {
      GrammaticalSplits(s);
    }
  }
}
