/** Hiding placeholders behind opaque tokens before a model sees the text, and putting them back. */
module Placeholders {
  import opened Texts
  import opened Decimals

  const UPPER_P: Rune := 0x50
  const UPPER_H: Rune := 0x48
  const PREFIX: Text := [UNDERSCORE, UNDERSCORE, UPPER_P, UPPER_H, UNDERSCORE]
  const SUFFIX: Text := [UNDERSCORE, UNDERSCORE]
  const CORE: Text := [UPPER_P, UPPER_H, UNDERSCORE]

  /** The digits of a token number or of a lower-case hexadecimal UUID. */
  predicate IsIdRune(c: Rune) { 0x30 <= c <= 0x39 || 0x61 <= c <= 0x66 }

  predicate IsId(id: Text) {
    id != [] && forall k :: 0 <= k < |id| ==> IsIdRune(id[k])
  }

  function Token(id: Text): Text {
    PREFIX + id + SUFFIX
  }

  /** A placeholder found by the pattern, as a half-open range of the text. */
  datatype Span = Span(start: nat, end: nat)

  /** Spans as the pattern's left-to-right search yields them, from position `from` on. */
  predicate Disjoint(text: Text, spans: seq<Span>, from: nat) {
    if spans == [] then from <= |text|
    else from <= spans[0].start < spans[0].end <= |text| && Disjoint(text, spans[1..], spans[0].end)
  }

  predicate DistinctIds(ids: seq<Text>) {
    (forall i :: 0 <= i < |ids| ==> IsId(ids[i])) && forall i, j :: 0 <= i < j < |ids| ==> ids[i] != ids[j]
  }

  /** The text from `from` on, each span replaced by its token. */
  function Protect(text: Text, spans: seq<Span>, ids: seq<Text>, from: nat): Text
    requires |ids| == |spans| && Disjoint(text, spans, from)
  {
    if spans == [] then text[from..]
    else text[from..spans[0].start] + (Token(ids[0]) + Protect(text, spans[1..], ids[1..], spans[0].end))
  }

  datatype Hidden = Hidden(token: Text, placeholder: Text)

  function Mapping(text: Text, spans: seq<Span>, ids: seq<Text>, from: nat): (m: seq<Hidden>)
    requires |ids| == |spans| && Disjoint(text, spans, from)
    ensures |m| == |spans|
    ensures forall k :: 0 <= k < |m| ==> m[k].token == Token(ids[k])
  {
    if spans == [] then []
    else [Hidden(Token(ids[0]), text[spans[0].start..spans[0].end])] + Mapping(text, spans[1..], ids[1..], spans[0].end)
  }

  function ReplaceTokens(text: Text, mapping: seq<Hidden>): Text
    requires forall k :: 0 <= k < |mapping| ==> mapping[k].token != []
    decreases |mapping|
  {
    if mapping == [] then text
    else ReplaceTokens(Replace(text, mapping[0].token, mapping[0].placeholder), mapping[1..])
  }

  /** The restored text, or the error when a token prefix is left over. */
  function Restore(text: Text, mapping: seq<Hidden>): Option<Text>
    requires forall k :: 0 <= k < |mapping| ==> mapping[k].token != []
  {
    if text == [] then Some(text)
    else
      var restored := ReplaceTokens(text, mapping);
      if Contains(restored, PREFIX) then None else Some(restored)
  }

  // ------------------------------------------------------------- replacing once

  lemma {:induction false} OccursShift(t: Text, n: nat, what: Text, i: nat)
    requires n <= |t|
    ensures OccursAt(t[n..], what, i) <==> OccursAt(t, what, n + i)
  {
    if i + |what| <= |t[n..]| {
      assert t[n..][i..i + |what|] == t[n + i..n + i + |what|];
    }
  }

  lemma {:induction false} PrefixOccurs(t: Text, what: Text)
    ensures what <= t <==> OccursAt(t, what, 0)
  {
  }

  /** `what` starts nowhere before `end`. */
  ghost predicate AbsentBefore(t: Text, what: Text, end: nat) {
    forall i: nat :: i < end ==> !OccursAt(t, what, i)
  }

  lemma {:induction false} AbsentStep(t: Text, what: Text, end: nat)
    requires 0 < end && t != [] && AbsentBefore(t, what, end)
    ensures !(what <= t) && AbsentBefore(t[1..], what, end - 1)
  {
    hide OccursAt;
    PrefixOccurs(t, what);
    forall i: nat | i < end - 1 ensures !OccursAt(t[1..], what, i) {
      OccursShift(t, 1, what, i);
    }
  }

  lemma {:induction false} ReplaceCons(t: Text, what: Text, with: Text)
    requires what != [] && t != [] && !(what <= t)
    ensures Replace(t, what, with) == [t[0]] + Replace(t[1..], what, with)
  {
  }

  lemma {:induction false} ReplaceAbsentText(t: Text, what: Text, with: Text)
    requires what != [] && AbsentBefore(t, what, |t|)
    ensures Replace(t, what, with) == t
  {
    hide AbsentBefore;
    if t != [] {
      AbsentStep(t, what, |t|);
      ReplaceCons(t, what, with);
      hide Replace;
      ReplaceAbsentText(t[1..], what, with);
      assert [t[0]] + t[1..] == t;
    }
  }

  lemma {:induction false} ReplaceHere(what: Text, b: Text, with: Text)
    requires what != []
    ensures Replace(what + b, what, with) == with + Replace(b, what, with)
  {
    assert what <= what + b && (what + b)[|what|..] == b;
  }

  /** Text that occurs where it was put and nowhere else is replaced there and nowhere else. */
  lemma {:induction false} ReplaceOnce(a: Text, what: Text, b: Text, with: Text)
    requires what != []
    requires AbsentBefore(a + (what + b), what, |a|)
    requires AbsentBefore(b, what, |b|)
    ensures Replace(a + (what + b), what, with) == a + (with + b)
  {
    hide AbsentBefore;
    hide Replace;
    var t := a + (what + b);
    if a == [] {
      assert t == what + b;
      assert a + (with + b) == with + b;
      ReplaceHere(what, b, with);
      ReplaceAbsentText(b, what, with);
    } else {
      assert t[1..] == a[1..] + (what + b);
      AbsentStep(t, what, |a|);
      ReplaceOnce(a[1..], what, b, with);
      ReplaceCons(t, what, with);
      assert [a[0]] + (a[1..] + (with + b)) == a + (with + b);
    }
  }

  // --------------------------------------------------- tokens occur where they were put

  /** Where the part of the text that precedes the next span ends. */
  function NextStart(text: Text, spans: seq<Span>): nat {
    if spans == [] then |text| else spans[0].start
  }

  /** Original text from `lo` to `from`, then the protected rest. */
  function Mixed(text: Text, spans: seq<Span>, ids: seq<Text>, lo: nat, from: nat): Text
    requires |ids| == |spans| && Disjoint(text, spans, from) && lo <= from
  {
    text[lo..from] + Protect(text, spans, ids, from)
  }

  lemma {:induction false} FromIsInText(text: Text, spans: seq<Span>, from: nat)
    requires Disjoint(text, spans, from)
    ensures from <= NextStart(text, spans) <= |text|
  {
  }

  lemma {:induction false} MixedParts(text: Text, spans: seq<Span>, ids: seq<Text>, lo: nat, from: nat)
    requires |ids| == |spans| && Disjoint(text, spans, from) && lo <= from
    ensures lo <= NextStart(text, spans) <= |text|
    ensures var plain := text[lo..NextStart(text, spans)];
            Mixed(text, spans, ids, lo, from)
            == if spans == [] then plain
               else plain + (Token(ids[0]) + Mixed(text, spans[1..], ids[1..], spans[0].end, spans[0].end))
  {
    FromIsInText(text, spans, from);
    assert text[lo..from] + text[from..NextStart(text, spans)] == text[lo..NextStart(text, spans)];
    if spans != [] {
      ProtectCons(text, spans, ids, from);
      MixedAtSpanEnd(text, spans[1..], ids[1..], spans[0].end);
      hide Token, Protect, Mixed, Disjoint;
      var s, rest := spans[0].start, Token(ids[0]) + Protect(text, spans[1..], ids[1..], spans[0].end);
      assert text[lo..from] + (text[from..s] + rest) == text[lo..s] + rest;
      MixedIs(text, spans, ids, lo, from);
    } else {
      ProtectNil(text, from);
    }
  }

  lemma {:induction false} MixedIs(text: Text, spans: seq<Span>, ids: seq<Text>, lo: nat, from: nat)
    requires |ids| == |spans| && Disjoint(text, spans, from) && lo <= from
    ensures from <= |text|
    ensures Mixed(text, spans, ids, lo, from) == text[lo..from] + Protect(text, spans, ids, from)
  {
    FromIsInText(text, spans, from);
  }

  lemma {:induction false} MixedAtSpanEnd(text: Text, spans: seq<Span>, ids: seq<Text>, from: nat)
    requires |ids| == |spans| && Disjoint(text, spans, from)
    ensures Mixed(text, spans, ids, from, from) == Protect(text, spans, ids, from)
  {
    FromIsInText(text, spans, from);
    assert text[from..from] == [];
    hide Protect;
  }

  /** `PH_`, then `id`, then an underscore, at `q`: what a token is recognised by. */
  predicate MarkAt(m: Text, q: nat, id: Text) {
    && q + 3 + |id| < |m|
    && m[q] == UPPER_P && m[q + 1] == UPPER_H && m[q + 2] == UNDERSCORE
    && (forall k :: 0 <= k < |id| ==> m[q + 3 + k] == id[k])
    && m[q + 3 + |id|] == UNDERSCORE
  }

  lemma {:induction false} MarkedRune(m: Text, q: nat, id: Text, k: nat)
    requires IsId(id) && MarkAt(m, q, id) && k < |id|
    ensures IsIdRune(m[q + 3 + k])
  {
    assert m[q + 3 + k] == id[k];
  }

  lemma {:induction false} SameId(m: Text, q: nat, id: Text, other: Text)
    requires IsId(id) && IsId(other) && MarkAt(m, q, id) && MarkAt(m, q, other)
    ensures id == other
  {
    if |id| < |other| {
      MarkedRune(m, q, other, |id|);
    } else if |other| < |id| {
      MarkedRune(m, q, id, |other|);
    }
  }

  lemma {:induction false} TokenRunes(id: Text)
    requires IsId(id)
    ensures |Token(id)| == |id| + 7
    ensures forall t :: 0 <= t < |Token(id)| ==>
              var c := Token(id)[t];
              if t == 2 then c == UPPER_P else if t == 3 then c == UPPER_H
              else if 5 <= t < 5 + |id| then c == id[t - 5] && IsIdRune(c) else c == UNDERSCORE
    ensures MarkAt(Token(id), 2, id)
  {
  }

  /** A mark inside original text puts `PH_` and the id there. */
  lemma {:induction false} MarkInText(text: Text, lo: nat, hi: nat, tail: Text, q: nat, id: Text)
    requires lo <= hi <= |text| && MarkAt(text[lo..hi] + tail, q, id)
    requires q + 3 + |id| <= hi - lo
    ensures Contains(text, CORE + id)
  {
    var m := text[lo..hi] + tail;
    var found := text[lo + q..lo + q + 3 + |id|];
    forall k | 0 <= k < |found| ensures found[k] == (CORE + id)[k] {
      assert found[k] == m[q + k];
    }
    assert found == CORE + id;
    assert OccursAt(text, CORE + id, lo + q);
  }

  lemma {:induction false} MarkShift(plain: Text, token: Text, rest: Text, id: Text)
    requires MarkAt(token, 2, id)
    ensures MarkAt(plain + (token + rest), |plain| + 2, id)
  {
    var m := plain + (token + rest);
    forall k | 0 <= k < |token| ensures m[|plain| + k] == token[k] {
    }
    forall k | 0 <= k < |id| ensures m[|plain| + 2 + 3 + k] == id[k] {
      assert m[|plain| + (5 + k)] == token[5 + k] == token[2 + 3 + k];
    }
  }

  /** Where a mark can stand when a token follows the original text: not across its start. */
  lemma {:induction false} MarkAtToken(plain: Text, own: Text, rest: Text, q: nat, id: Text)
    requires IsId(id) && IsId(own) && MarkAt(plain + (Token(own) + rest), q, id)
    requires |plain| < q + 3 + |id| && q < |plain| + |Token(own)|
    ensures q == |plain| + 2 && id == own
  {
    var token, m := Token(own), plain + (Token(own) + rest);
    TokenRunes(own);
    hide Token;
    if q < |plain| {
      assert m[|plain|] == token[0] && m[|plain| + 1] == token[1];
      MarkedRune(m, q, id, if |plain| <= q + 2 then 0 else |plain| - q - 3);
    } else {
      assert m[q] == token[q - |plain|];
      MarkShift(plain, token, rest, own);
      SameId(m, q, id, own);
    }
  }

  lemma {:induction false} MarkLater(front: Text, rest: Text, q: nat, id: Text)
    requires MarkAt(front + rest, q, id) && |front| <= q
    ensures MarkAt(rest, q - |front|, id)
  {
    var m := front + rest;
    forall k | q <= k < |m| ensures rest[k - |front|] == m[k] {
    }
    forall k | 0 <= k < |id| ensures rest[q - |front| + 3 + k] == id[k] {
      assert m[q + 3 + k] == rest[q - |front| + 3 + k];
    }
  }

  /** What a protected text's remainder still satisfies. */
  lemma {:induction false} TailIsProtected(text: Text, spans: seq<Span>, ids: seq<Text>, from: nat)
    requires |ids| == |spans| > 0 && Disjoint(text, spans, from) && DistinctIds(ids)
    ensures |ids[1..]| == |spans[1..]| && Disjoint(text, spans[1..], spans[0].end) && DistinctIds(ids[1..])
    ensures IsId(ids[0]) && ids[0] !in ids[1..]
    ensures from <= spans[0].start < spans[0].end <= |text|
  {
    FromIsInText(text, spans[1..], spans[0].end);
    hide IsId, Disjoint;
  }

  /** An id that never follows `PH_` in the text is marked only inside its own token. */
  lemma {:induction false} MarksStayInTokens(text: Text, spans: seq<Span>, ids: seq<Text>, lo: nat, from: nat, id: Text,
        q: nat)
    requires |ids| == |spans| && Disjoint(text, spans, from) && lo <= from && DistinctIds(ids) && IsId(id)
    requires !Contains(text, CORE + id)
    requires MarkAt(Mixed(text, spans, ids, lo, from), q, id)
    ensures spans != [] && id in ids && q >= NextStart(text, spans) - lo + 2
    decreases |spans|
  {
    MixedParts(text, spans, ids, lo, from);
    hide Token, Protect, Contains, MarkAt, Mixed, Disjoint, DistinctIds, IsId;
    var end := NextStart(text, spans);
    var plain := text[lo..end];
    if q + 3 + |id| <= |plain| {
      assert plain + [] == plain;
      MarkInText(text, lo, end,
                 if spans == [] then []
                 else Token(ids[0]) + Mixed(text, spans[1..], ids[1..], spans[0].end, spans[0].end), q, id);
      assert false;
    } else if spans == [] {
      MarkFits(plain, q, id);
    } else {
      TailIsProtected(text, spans, ids, from);
      var token, rest := Token(ids[0]), Mixed(text, spans[1..], ids[1..], spans[0].end, spans[0].end);
      if q < |plain| + |token| {
        MarkAtToken(plain, ids[0], rest, q, id);
      } else {
        assert plain + (token + rest) == (plain + token) + rest;
        MarkLater(plain + token, rest, q, id);
        MarksStayInTokens(text, spans[1..], ids[1..], spans[0].end, spans[0].end, id, q - |plain| - |token|);
      }
    }
  }

  lemma {:induction false} MarkFits(m: Text, q: nat, id: Text)
    requires MarkAt(m, q, id)
    ensures q + 3 + |id| < |m|
  {
  }

  lemma {:induction false} TokenMarks(m: Text, i: nat, id: Text)
    requires IsId(id) && OccursAt(m, Token(id), i)
    ensures MarkAt(m, i + 2, id)
  {
    var token := Token(id);
    TokenRunes(id);
    hide Token;
    forall k | 0 <= k < |token| ensures m[i + k] == token[k] {
      assert m[i..i + |token|][k] == m[i + k];
    }
    forall k | 0 <= k < |id| ensures m[i + 2 + 3 + k] == id[k] {
      assert m[i + (5 + k)] == token[5 + k];
    }
  }

  /** The ids never follow `PH_` in the text. */
  ghost predicate Unused(text: Text, ids: seq<Text>) {
    forall k :: 0 <= k < |ids| ==> !Contains(text, CORE + ids[k])
  }

  /** Before a token is replaced, it stands only where the protection put it. */
  lemma {:induction false} TokenStandsOnce(text: Text, spans: seq<Span>, ids: seq<Text>, from: nat)
    requires |ids| == |spans| > 0 && Disjoint(text, spans, from) && DistinctIds(ids) && Unused(text, ids)
    ensures spans[0].start <= |text|
    ensures var rest := Protect(text, spans[1..], ids[1..], spans[0].end);
            && Mixed(text, spans, ids, 0, from) == text[..spans[0].start] + (Token(ids[0]) + rest)
            && AbsentBefore(text[..spans[0].start] + (Token(ids[0]) + rest), Token(ids[0]), spans[0].start)
            && AbsentBefore(rest, Token(ids[0]), |rest|)
  {
    MixedParts(text, spans, ids, 0, from);
    var s, e := spans[0].start, spans[0].end;
    FromIsInText(text, spans[1..], e);
    var rest := Protect(text, spans[1..], ids[1..], e);
    assert text[e..e] == [] && Mixed(text, spans[1..], ids[1..], e, e) == rest;
    TailIsProtected(text, spans, ids, from);
    TailsUnused(text, ids);
    hide Token, Protect, Contains, MarkAt, Mixed, OccursAt, Disjoint, DistinctIds, IsId;
    assert text[0..s] == text[..s];
    forall i: nat | i < s ensures !OccursAt(Mixed(text, spans, ids, 0, from), Token(ids[0]), i) {
      if OccursAt(Mixed(text, spans, ids, 0, from), Token(ids[0]), i) {
        TokenMarks(Mixed(text, spans, ids, 0, from), i, ids[0]);
        MarksStayInTokens(text, spans, ids, 0, from, ids[0], i + 2);
      }
    }
    forall i: nat | i < |rest| ensures !OccursAt(rest, Token(ids[0]), i) {
      if OccursAt(rest, Token(ids[0]), i) {
        TokenMarks(rest, i, ids[0]);
        MarksStayInTokens(text, spans[1..], ids[1..], e, e, ids[0], i + 2);
      }
    }
  }

  lemma {:induction false} MappingCons(text: Text, spans: seq<Span>, ids: seq<Text>, from: nat)
    requires |ids| == |spans| > 0 && Disjoint(text, spans, from)
    ensures from <= spans[0].start < spans[0].end <= |text|
    ensures Mapping(text, spans, ids, from)
            == [Hidden(Token(ids[0]), text[spans[0].start..spans[0].end])]
                + Mapping(text, spans[1..], ids[1..], spans[0].end)
  {
    FromIsInText(text, spans[1..], spans[0].end);
  }

  lemma {:induction false} ReplaceTokensCons(t: Text, token: Text, held: Text, mapping: seq<Hidden>)
    requires token != [] && forall k :: 0 <= k < |mapping| ==> mapping[k].token != []
    ensures ReplaceTokens(t, [Hidden(token, held)] + mapping) == ReplaceTokens(Replace(t, token, held), mapping)
  {
    hide Replace;
    assert ([Hidden(token, held)] + mapping)[1..] == mapping;
  }

  /** Replacing the tokens one after another undoes the protection, one span at a time. */
  lemma {:induction false} TokensRestoreText(text: Text, spans: seq<Span>, ids: seq<Text>, from: nat)
    requires |ids| == |spans| && Disjoint(text, spans, from) && DistinctIds(ids) && Unused(text, ids)
    ensures ReplaceTokens(Mixed(text, spans, ids, 0, from), Mapping(text, spans, ids, from)) == text
    decreases |spans|
  {
    if spans == [] {
      FromIsInText(text, spans, from);
      assert text[0..from] + text[from..] == text;
    } else {
      TailIsProtected(text, spans, ids, from);
      TailsUnused(text, ids);
      var e := spans[0].end;
      var mixed, rest := Mixed(text, spans, ids, 0, from), Mixed(text, spans[1..], ids[1..], 0, e);
      var held, later := text[spans[0].start..e], Mapping(text, spans[1..], ids[1..], e);
      MappingCons(text, spans, ids, from);
      FirstTokenIsRestored(text, spans, ids, from);
      hide Replace, Unused, DistinctIds, Mapping, Disjoint, Mixed, Token;
      TokensRestoreText(text, spans[1..], ids[1..], e);
      ReplaceTokensCons(mixed, Token(ids[0]), held, later);
    }
  }

  lemma {:induction false} FirstTokenIsRestored(text: Text, spans: seq<Span>, ids: seq<Text>, from: nat)
    requires |ids| == |spans| > 0 && Disjoint(text, spans, from) && DistinctIds(ids) && Unused(text, ids)
    ensures spans[0].start < spans[0].end <= |text| && Token(ids[0]) != []
    ensures Replace(Mixed(text, spans, ids, 0, from), Token(ids[0]), text[spans[0].start..spans[0].end])
            == Mixed(text, spans[1..], ids[1..], 0, spans[0].end)
  {
    TokenStandsOnce(text, spans, ids, from);
    TailIsProtected(text, spans, ids, from);
    var s, e := spans[0].start, spans[0].end;
    var rest, held := Protect(text, spans[1..], ids[1..], e), text[s..e];
    assert Mixed(text, spans[1..], ids[1..], 0, e) == text[0..e] + rest;
    hide Replace, Unused, DistinctIds, AbsentBefore, Protect, Mixed, Disjoint;
    assert text[..s] + (held + rest) == text[0..e] + rest;
    ReplaceOnce(text[..s], Token(ids[0]), rest, held);
  }

  lemma {:induction false} TailsUnused(text: Text, ids: seq<Text>)
    requires ids != [] && DistinctIds(ids) && Unused(text, ids)
    ensures DistinctIds(ids[1..]) && Unused(text, ids[1..])
  {
    hide Contains;
  }

  /** Restoring what was protected gives the text back, whatever the spans and wherever tokens
      touch, if no id follows `PH_` in the text; the leftover check then fails exactly for
      text that holds `__PH_` itself. */
  lemma {:induction false} ProtectedTextIsRestored(text: Text, spans: seq<Span>, ids: seq<Text>)
    requires |ids| == |spans| && Disjoint(text, spans, 0) && DistinctIds(ids) && Unused(text, ids)
    ensures ReplaceTokens(Protect(text, spans, ids, 0), Mapping(text, spans, ids, 0)) == text
    ensures text != [] ==> Restore(Protect(text, spans, ids, 0), Mapping(text, spans, ids, 0))
                           == if Contains(text, PREFIX) then None else Some(text)
    ensures text == [] ==> Restore(Protect(text, spans, ids, 0), Mapping(text, spans, ids, 0)) == Some(text)
  {
    hide Replace, Contains, Unused, DistinctIds;
    TokensRestoreText(text, spans, ids, 0);
    assert text[0..0] + Protect(text, spans, ids, 0) == Protect(text, spans, ids, 0);
    if spans == [] {
      assert Protect(text, spans, ids, 0) == text[0..] == text;
    } else {
      assert Protect(text, spans, ids, 0)[spans[0].start] == Token(ids[0])[0];
    }
  }

  lemma {:induction false} ContainsPart(text: Text, part: Text, more: Text)
    requires Contains(text, part + more) || Contains(text, more + part)
    ensures Contains(text, part)
  {
    if Contains(text, part + more) {
      var i: nat :| i <= |text| && OccursAt(text, part + more, i);
      assert text[i..i + |part|] == text[i..i + |part + more|][..|part|] == part;
      assert OccursAt(text, part, i);
    } else {
      var i: nat :| i <= |text| && OccursAt(text, more + part, i);
      assert text[i + |more|..i + |more| + |part|] == text[i..i + |more + part|][|more|..] == part;
      assert OccursAt(text, part, i + |more|);
    }
  }

  /** Text without `PH_` survives with any distinct ids and never meets the leftover check. */
  lemma {:induction false} PlaceholderRoundTrip(text: Text, spans: seq<Span>, ids: seq<Text>)
    requires |ids| == |spans| && Disjoint(text, spans, 0) && DistinctIds(ids)
    requires !Contains(text, CORE)
    ensures Restore(Protect(text, spans, ids, 0), Mapping(text, spans, ids, 0)) == Some(text)
  {
    hide Contains, Protect, Mapping, Restore, DistinctIds;
    forall k | 0 <= k < |ids| ensures !Contains(text, CORE + ids[k]) {
      if Contains(text, CORE + ids[k]) { ContainsPart(text, CORE, ids[k]); }
    }
    ProtectedTextIsRestored(text, spans, ids);
    if Contains(text, PREFIX) {
      assert PREFIX == [UNDERSCORE, UNDERSCORE] + CORE;
      ContainsPart(text, CORE, [UNDERSCORE, UNDERSCORE]);
    }
  }

  /** Ids that do not occur in the text at all, as random ones do not, restore every text;
      the leftover check rejects it exactly when it holds a token prefix of its own. */
  lemma {:induction false} UnseenIdsRoundTrip(text: Text, spans: seq<Span>, ids: seq<Text>)
    requires |ids| == |spans| && Disjoint(text, spans, 0) && DistinctIds(ids) && text != []
    requires forall k :: 0 <= k < |ids| ==> !Contains(text, ids[k])
    ensures Restore(Protect(text, spans, ids, 0), Mapping(text, spans, ids, 0))
            == if Contains(text, PREFIX) then None else Some(text)
  {
    hide Contains, Protect, Mapping, Restore, DistinctIds;
    forall k | 0 <= k < |ids| ensures !Contains(text, CORE + ids[k]) {
      if Contains(text, CORE + ids[k]) { ContainsPart(text, ids[k], CORE); }
    }
    ProtectedTextIsRestored(text, spans, ids);
  }

  // ----------------------------------------------------------------- the two loops

  lemma {:induction false} ProtectCons(text: Text, spans: seq<Span>, ids: seq<Text>, from: nat)
    requires |ids| == |spans| > 0 && Disjoint(text, spans, from)
    ensures from <= spans[0].start < spans[0].end <= |text| && Disjoint(text, spans[1..], spans[0].end)
    ensures Protect(text, spans, ids, from)
            == text[from..spans[0].start] + (Token(ids[0]) + Protect(text, spans[1..], ids[1..], spans[0].end))
  {
    FromIsInText(text, spans[1..], spans[0].end);
  }

  /** `protect_placeholders`: the substitution walks the matches and fills the mapping. */
  method ProtectPlaceholders(text: Text, spans: seq<Span>, ids: seq<Text>) returns (hidden: Text, mapping: seq<Hidden>)
    requires |ids| == |spans| && Disjoint(text, spans, 0)
    ensures hidden == Protect(text, spans, ids, 0)
    ensures mapping == Mapping(text, spans, ids, 0)
  {
    hide Protect, Mapping, Token, Disjoint;
    hidden, mapping := [], [];
    var done: nat := 0;
    for k := 0 to |spans|
      invariant done <= |text| && Disjoint(text, spans[k..], done)
      invariant hidden + Protect(text, spans[k..], ids[k..], done) == Protect(text, spans, ids, 0)
      invariant mapping + Mapping(text, spans[k..], ids[k..], done) == Mapping(text, spans, ids, 0)
    {
      var span, token := spans[k], Token(ids[k]);
      assert spans[k..][0] == span && ids[k..][0] == ids[k];
      assert spans[k..][1..] == spans[k + 1..] && ids[k..][1..] == ids[k + 1..];
      ProtectCons(text, spans[k..], ids[k..], done);
      MappingCons(text, spans[k..], ids[k..], done);
      AppendTwo(hidden, text[done..span.start], token, Protect(text, spans[k + 1..], ids[k + 1..], span.end));
      hidden := hidden + text[done..span.start] + token;
      mapping := mapping + [Hidden(token, text[span.start..span.end])];
      done := span.end;
    }
    assert spans[|spans|..] == [] && ids[|spans|..] == [];
    ProtectNil(text, done);
    hidden := hidden + text[done..];
  }

  lemma {:induction false} AppendTwo(a: Text, b: Text, c: Text, d: Text)
    ensures a + (b + (c + d)) == a + b + c + d
  {
  }

  lemma {:induction false} ProtectNil(text: Text, from: nat)
    requires Disjoint(text, [], from)
    ensures from <= |text| && Protect(text, [], [], from) == text[from..] && Mapping(text, [], [], from) == []
  {
  }

  /** `restore_placeholders`: one replacement per token, then the check for a leftover prefix. */
  method RestorePlaceholders(text: Text, mapping: seq<Hidden>) returns (restored: Option<Text>)
    requires forall k :: 0 <= k < |mapping| ==> mapping[k].token != []
    ensures restored == Restore(text, mapping)
  {
    if text == [] {
      return Some(text);
    }
    var t := text;
    for k := 0 to |mapping|
      invariant ReplaceTokens(t, mapping[k..]) == ReplaceTokens(text, mapping)
    {
      hide Replace;
      assert mapping[k..] == [Hidden(mapping[k].token, mapping[k].placeholder)] + mapping[k + 1..];
      ReplaceTokensCons(t, mapping[k].token, mapping[k].placeholder, mapping[k + 1..]);
      t := Replace(t, mapping[k].token, mapping[k].placeholder);
    }
    if Contains(t, PREFIX) {
      return None;
    }
    return Some(t);
  }

  // ----------------------------------------------------------------- counted tokens

  function Zeros(n: nat): Text {
    if n == 0 then [] else [ZERO] + Zeros(n - 1)
  }

  /** A number in at least four digits. */
  function Padded(n: nat): Text {
    var digits := Decimal(n);
    if |digits| < 4 then Zeros(4 - |digits|) + digits else digits
  }

  lemma {:induction false} LeadingZero(t: Text)
    requires AllDigits(t)
    ensures AllDigits([ZERO] + t) && Value([ZERO] + t) == Value(t)
  {
    var longer := [ZERO] + t;
    if t == [] {
      assert longer[..|longer| - 1] == [];
    } else {
      LeadingZero(t[..|t| - 1]);
      assert longer[..|longer| - 1] == [ZERO] + t[..|t| - 1];
    }
  }

  lemma {:induction false} LeadingZeros(n: nat, t: Text)
    requires AllDigits(t)
    ensures AllDigits(Zeros(n) + t) && Value(Zeros(n) + t) == Value(t)
  {
    if n == 0 {
      assert Zeros(0) + t == t;
    } else {
      LeadingZeros(n - 1, t);
      LeadingZero(Zeros(n - 1) + t);
      assert Zeros(n) + t == [ZERO] + (Zeros(n - 1) + t);
    }
  }

  lemma {:induction false} DigitsAreIdRunes(t: Text)
    requires AllDigits(t) && t != []
    ensures IsId(t)
  {
    if |t| > 1 {
      DigitsAreIdRunes(t[..|t| - 1]);
    }
    forall k | 0 <= k < |t| ensures IsIdRune(t[k]) {
      if k < |t| - 1 { assert t[k] == t[..|t| - 1][k]; }
    }
  }

  lemma {:induction false} PaddedIsId(n: nat)
    ensures IsId(Padded(n)) && |Padded(n)| >= |Decimal(n)|
    ensures AllDigits(Padded(n)) && Value(Padded(n)) == n
  {
    var digits := Decimal(n);
    DecimalRoundTrip(n);
    if |digits| < 4 { LeadingZeros(4 - |digits|, digits); }
    hide AllDigits, Decimal, Value;
    DigitsAreIdRunes(Padded(n));
  }

  function PowerOfTen(n: nat): (p: nat)
    ensures p >= 1
  {
    if n == 0 then 1 else 10 * PowerOfTen(n - 1)
  }

  lemma {:induction false} LargeNumbersAreLong(n: nat, digits: nat)
    requires n >= PowerOfTen(digits)
    ensures |Decimal(n)| > digits
  {
    if digits > 0 {
      assert n / 10 >= PowerOfTen(digits - 1);
      LargeNumbersAreLong(n / 10, digits - 1);
    }
  }

  /** A counter value whose token the text already holds is below a bound the text sets. */
  lemma {:induction false} UsedTokensAreSmall(text: Text, n: nat)
    requires Contains(text, Token(Padded(n)))
    ensures n < PowerOfTen(|text|)
  {
    PaddedIsId(n);
    hide Padded, Decimal;
    if n >= PowerOfTen(|text|) { LargeNumbersAreLong(n, |text|); }
  }

  /** The next counter value whose token the text does not hold. */
  method NextCounter(text: Text, counter: nat) returns (next: nat)
    ensures next > counter && !Contains(text, Token(Padded(next)))
    ensures forall n :: counter < n < next ==> Contains(text, Token(Padded(n)))
  {
    hide Contains, Token, Padded;
    next := counter + 1;
    while Contains(text, Token(Padded(next)))
      invariant next > counter
      invariant forall n :: counter < n < next ==> Contains(text, Token(Padded(n)))
      decreases PowerOfTen(|text|) - next
    {
      UsedTokensAreSmall(text, next);
      next := next + 1;
    }
  }

  /** The counted tokens of a capture run: the smallest numbers whose tokens the text does not
      hold, in order, and so distinct ids. */
  method CountedIds(text: Text, count: nat) returns (ids: seq<Text>, counters: seq<nat>)
    ensures |ids| == |counters| == count && DistinctIds(ids)
    ensures forall k :: 0 <= k < count ==> ids[k] == Padded(counters[k])
    ensures forall k :: 0 < k < count ==> counters[k - 1] < counters[k]
    ensures forall k, n :: 0 <= k < count && 0 < n <= counters[k] ==>
                             (n in counters <==> !Contains(text, Token(Padded(n))))
  {
    hide Contains, Token, Padded, Decimal, IsId, AllDigits, Value;
    ids, counters := [], [];
    var counter := 0;
    for k := 0 to count
      invariant |ids| == |counters| == k
      invariant forall i :: 0 <= i < k ==> ids[i] == Padded(counters[i]) && 0 < counters[i] <= counter
      invariant forall i, j :: 0 <= i < j < k ==> counters[i] < counters[j]
      invariant forall n :: 0 < n <= counter ==> (n in counters <==> !Contains(text, Token(Padded(n))))
    {
      ghost var before := counters;
      counter := NextCounter(text, counter);
      ids, counters := ids + [Padded(counter)], counters + [counter];
      assert forall n :: n in counters <==> n in before || n == counter;
    }
    forall i | 0 <= i < count ensures IsId(ids[i]) && AllDigits(ids[i]) && Value(ids[i]) == counters[i] {
      PaddedIsId(counters[i]);
    }
  }

  lemma {:induction false} OccursDiffer(t: Text, part: Text, i: nat, k: nat)
    requires i + |part| <= |t| ==> k < |part| && t[i + k] != part[k]
    ensures !OccursAt(t, part, i)
  {
    if i + |part| <= |t| {
      assert t[i..i + |part|][k] == t[i + k];
    }
  }

  const FIRST_ID: Text := [ZERO, ZERO, ZERO, ONE]
  const HELD: Text := [0x7B, ZERO, 0x7D]

  lemma {:induction false} CollidingTextLacksToken()
    ensures !Contains(PREFIX + FIRST_ID + HELD, Token(FIRST_ID))
    ensures !Contains(HELD + (CORE + FIRST_ID + SUFFIX), PREFIX)
  {
    var text, restored := PREFIX + FIRST_ID + HELD, HELD + (CORE + FIRST_ID + SUFFIX);
    forall i: nat | i <= |text| ensures !OccursAt(text, Token(FIRST_ID), i) {
      OccursDiffer(text, Token(FIRST_ID), i, if i == 0 then 9 else 1);
    }
    forall i: nat | i <= |restored| ensures !OccursAt(restored, PREFIX, i) {
      OccursDiffer(restored, PREFIX, i, if i == 5 then 1 else 0);
    }
  }

  lemma {:induction false} CollidingTextProtected()
    ensures var text := PREFIX + FIRST_ID + HELD;
            && Disjoint(text, [Span(9, 12)], 0) && DistinctIds([FIRST_ID])
            && Protect(text, [Span(9, 12)], [FIRST_ID], 0) == Token(FIRST_ID) + (CORE + FIRST_ID + SUFFIX)
            && Mapping(text, [Span(9, 12)], [FIRST_ID], 0) == [Hidden(Token(FIRST_ID), HELD)]
  {
    var text := PREFIX + FIRST_ID + HELD;
    var spans, ids := [Span(9, 12)], [FIRST_ID];
    assert spans[1..] == [] && ids[1..] == [];
    assert Disjoint(text, [], 12) && Protect(text, [], [], 12) == [] && Mapping(text, [], [], 12) == [];
    assert text[0..9] + (Token(FIRST_ID) + []) == Token(FIRST_ID) + (CORE + FIRST_ID + SUFFIX);
    assert text[9..12] == HELD;
  }

  lemma {:induction false} FirstCountedId()
    ensures Padded(1) == FIRST_ID
  {
    assert Decimal(1) == [ONE];
    assert Zeros(0) == [] && Zeros(1) == [ZERO] && Zeros(2) == [ZERO, ZERO] && Zeros(3) == [ZERO, ZERO, ZERO];
  }

  /** Not holding the whole counted token is too weak: `__PH_0001` right before a placeholder
      forms a token with it, and the text comes back changed without any error. */
  lemma {:induction false} CountedTokenCollides()
    ensures Padded(1) == FIRST_ID
    ensures var text := PREFIX + FIRST_ID + HELD;
            && !Contains(text, Token(FIRST_ID))
            && Disjoint(text, [Span(9, 12)], 0) && DistinctIds([FIRST_ID])
            && Restore(Protect(text, [Span(9, 12)], [FIRST_ID], 0), Mapping(text, [Span(9, 12)], [FIRST_ID], 0))
               == Some(HELD + (CORE + FIRST_ID + SUFFIX))
            && HELD + (CORE + FIRST_ID + SUFFIX) != text
  {
    FirstCountedId();
    CollidingTextLacksToken();
    CollidingTextProtected();
    var token, rest := Token(FIRST_ID), CORE + FIRST_ID + SUFFIX;
    assert (HELD + rest)[0] != (PREFIX + FIRST_ID + HELD)[0];
    assert token != [] && |rest| < |token|;
    hide Token, Contains, Protect, Mapping;
    ReplaceHere(token, rest, HELD);
    ReplaceAbsentText(rest, token, HELD);
    ReplaceTokensCons(token + rest, token, HELD, []);
    assert [Hidden(token, HELD)] + [] == [Hidden(token, HELD)];
  }
}
