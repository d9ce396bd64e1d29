/** Which glossary terms a source value requires, and which of them its translation lacks. */
module Glossary {
  import opened Sorting
  import opened Texts

  /** A match of a source term in the source value, with the target term it asks for. */
  datatype Candidate = Candidate(start: nat, end: nat, source: Text, target: Text)

  type Pair = (Text, Text)

  function Length(c: Candidate): int {
    c.end - c.start
  }

  /** Longer matches first, then earlier ones. */
  predicate Precedes(a: Candidate, b: Candidate) {
    Length(a) > Length(b) || (Length(a) == Length(b) && a.start <= b.start)
  }

  /** The stable sort of the candidates. */
  function SortedCandidates(candidates: seq<Candidate>): seq<Candidate> {
    SortBy(Precedes, candidates)
  }

  predicate Overlap(a: Candidate, b: Candidate) {
    a.start < b.end && a.end > b.start
  }

  predicate Clashes(c: Candidate, selected: seq<Candidate>) {
    exists s :: s in selected && Overlap(c, s)
  }

  function Greedy(sorted: seq<Candidate>, n: nat): seq<Candidate>
    requires n <= |sorted|
  {
    if n == 0 then []
    else
      var before := Greedy(sorted, n - 1);
      if Clashes(sorted[n - 1], before) then before else before + [sorted[n - 1]]
  }

  function SelectedSpans(candidates: seq<Candidate>): seq<Candidate> {
    var sorted := SortedCandidates(candidates);
    Greedy(sorted, |sorted|)
  }

  lemma {:induction false} PrecedesRanks()
    ensures Ranks(Precedes)
  {
  }

  ghost predicate PairwiseDisjoint(selected: seq<Candidate>) {
    forall i, j :: 0 <= i < j < |selected| ==> !Overlap(selected[i], selected[j])
  }

  /** Selected, or overlapped by a selected match that is longer, or as long and not later. */
  ghost predicate Settled(c: Candidate, selected: seq<Candidate>) {
    c in selected || exists s :: s in selected && Overlap(c, s) && Precedes(s, c)
  }

  /** The greedy pass leaves disjoint matches and drops a match only for a better one. */
  lemma {:induction false} GreedyIsBestFirst(sorted: seq<Candidate>, n: nat)
    requires n <= |sorted| && Ordered(Precedes, sorted)
    ensures PairwiseDisjoint(Greedy(sorted, n))
    ensures forall s :: s in Greedy(sorted, n) ==> s in sorted[..n]
    ensures forall k :: 0 <= k < n ==> Settled(sorted[k], Greedy(sorted, n))
  {
    hide Ordered, Precedes, Overlap;
    if n > 0 {
      GreedyIsBestFirst(sorted, n - 1);
      var before, after, c := Greedy(sorted, n - 1), Greedy(sorted, n), sorted[n - 1];
      assert sorted[..n] == sorted[..n - 1] + [c];
      if Clashes(c, before) {
        var s :| s in before && Overlap(c, s);
        var i :| 0 <= i < n - 1 && sorted[..n - 1][i] == s;
        OrderedPair(Precedes, sorted, i, n - 1);
      } else {
        assert forall s :: s in before ==> !Overlap(c, s);
        forall i | 0 <= i < |before| ensures !Overlap(after[i], c) {
          OverlapIsSymmetric(before[i], c);
        }
        forall k | 0 <= k < n - 1 ensures Settled(sorted[k], after) {
          assert Settled(sorted[k], before);
        }
      }
    }
  }

  lemma {:induction false} OverlapIsSymmetric(a: Candidate, b: Candidate)
    ensures Overlap(a, b) <==> Overlap(b, a)
  {
  }

  /** The selected matches are candidates, disjoint, and every other candidate gives way to a
      selected one that overlaps it and is at least as long. */
  lemma {:induction false} SelectionIsSound(candidates: seq<Candidate>)
    ensures PairwiseDisjoint(SelectedSpans(candidates))
    ensures forall s :: s in SelectedSpans(candidates) ==> s in candidates
    ensures forall c :: c in candidates ==>
              c in SelectedSpans(candidates)
              || exists s :: s in SelectedSpans(candidates) && Overlap(c, s) && Length(s) >= Length(c)
  {
    var sorted := SortedCandidates(candidates);
    PrecedesRanks();
    SortOrders(Precedes, candidates);
    GreedyIsBestFirst(sorted, |sorted|);
    hide Greedy, Overlap, SortedCandidates, PairwiseDisjoint;
    var selected := SelectedSpans(candidates);
    assert sorted[..|sorted|] == sorted;
    forall c | c in candidates && c !in selected
      ensures exists s :: s in selected && Overlap(c, s) && Length(s) >= Length(c)
    {
      var k :| 0 <= k < |sorted| && sorted[k] == c;
      assert Settled(sorted[k], selected);
    }
  }

  // ---------------------------------------------- the selection, told by positions

  predicate Covers(c: Candidate, position: int) {
    c.start <= position < c.end
  }

  ghost predicate Share(a: Candidate, b: Candidate) {
    exists position :: Covers(a, position) && Covers(b, position)
  }

  /** Why `s` goes before `c`: it is longer, or as long and earlier, or it matches the same stretch and
      comes from an earlier term of the glossary. */
  predicate Beats(candidates: seq<Candidate>, s: Candidate, c: Candidate) {
    || s.end - s.start > c.end - c.start
    || (s.end - s.start == c.end - c.start && s.start < c.start)
    || (s.end == c.end && s.start == c.start && StandsBefore(candidates, s, c))
  }

  lemma {:induction false} OverlapIsShared(a: Candidate, b: Candidate)
    requires a.start < a.end && b.start < b.end
    ensures Overlap(a, b) <==> Share(a, b)
  {
    var first := if a.start < b.start then b.start else a.start;
    assert Overlap(a, b) ==> Covers(a, first) && Covers(b, first);
  }

  /** What the greedy pass drops, it drops for a match that it meets first. */
  lemma {:induction false} DroppedForEarlier(sorted: seq<Candidate>, n: nat, k: nat) returns (i: nat)
    requires k < n <= |sorted| && sorted[k] !in Greedy(sorted, n)
    ensures i < k && sorted[i] in Greedy(sorted, n) && Overlap(sorted[k], sorted[i])
  {
    hide Overlap;
    if k < n - 1 {
      i := DroppedForEarlier(sorted, n - 1, k);
    } else {
      var before := Greedy(sorted, n - 1);
      var s :| s in before && Overlap(sorted[k], s);
      GreedyPicks(sorted, n - 1, s);
      i :| 0 <= i < n - 1 && sorted[i] == s;
    }
  }

  lemma {:induction false} GreedyPicks(sorted: seq<Candidate>, n: nat, s: Candidate)
    requires n <= |sorted| && s in Greedy(sorted, n)
    ensures exists i :: 0 <= i < n && sorted[i] == s
  {
    hide Overlap;
    if n > 0 && s in Greedy(sorted, n - 1) { GreedyPicks(sorted, n - 1, s); }
  }

  lemma {:induction false} FirstIndex(sorted: seq<Candidate>, c: Candidate) returns (k: nat)
    requires c in sorted
    ensures k < |sorted| && sorted[k] == c && c !in sorted[..k]
  {
    k := 0;
    while sorted[k] != c
      invariant k < |sorted| && c !in sorted[..k] && c in sorted[k..]
      decreases |sorted| - k
    {
      k := k + 1;
    }
  }

  /** The selected matches are candidates, no two of them share a position, and every candidate that is
      not selected shares one with a selected match that goes before it. */
  lemma {:induction false} SelectionIsExact(candidates: seq<Candidate>)
    requires forall c :: c in candidates ==> c.start < c.end
    ensures var selected := SelectedSpans(candidates);
            && (forall s :: s in selected ==> s in candidates)
            && (forall i, j :: 0 <= i < j < |selected| ==> !Share(selected[i], selected[j]))
            && (forall c :: c in candidates && c !in selected ==>
                  exists s :: s in selected && Share(c, s) && Beats(candidates, s, c))
  {
    var sorted, selected := SortedCandidates(candidates), SelectedSpans(candidates);
    PrecedesRanks();
    SortOrders(Precedes, candidates);
    GreedyIsBestFirst(sorted, |sorted|);
    hide Greedy, Overlap, Share, SelectedSpans, SortBy, Ordered, Ranks, Beats;
    assert sorted[..|sorted|] == sorted;
    forall i, j | 0 <= i < j < |selected| ensures !Share(selected[i], selected[j]) {
      assert selected[i] in candidates && selected[j] in candidates;
      OverlapIsShared(selected[i], selected[j]);
    }
    forall c | c in candidates && c !in selected
      ensures exists s :: s in selected && Share(c, s) && Beats(candidates, s, c)
    {
      var s := Winner(candidates, c);
    }
  }

  lemma {:induction false} Winner(candidates: seq<Candidate>, c: Candidate) returns (s: Candidate)
    requires forall x :: x in candidates ==> x.start < x.end
    requires c in candidates && c !in SelectedSpans(candidates)
    ensures s in SelectedSpans(candidates) && Share(c, s) && Beats(candidates, s, c)
  {
    var sorted := SortedCandidates(candidates);
    PrecedesRanks();
    SortOrders(Precedes, candidates);
    hide Greedy, Overlap, Share, SortBy, Ordered, Ranks, StandsBefore;
    var k := FirstIndex(sorted, c);
    var i := DroppedForEarlier(sorted, |sorted|, k);
    s := sorted[i];
    assert s in candidates;
    OverlapIsShared(c, s);
    OrderedPair(Precedes, sorted, i, k);
    if s.start == c.start && s.end == c.end {
      assert c !in sorted[..i + 1] by { assert forall x :: x in sorted[..i + 1] ==> x in sorted[..k]; }
      FirstOnes(sorted, i, s, c);
      SortKeepsTies(Precedes, candidates, s, c);
    }
  }

  // ---------------------------------------------------------------- required mappings

  function PairOf(c: Candidate): Pair {
    (c.source, c.target)
  }

  function PairsOf(selected: seq<Candidate>): multiset<Pair> {
    if selected == [] then multiset{}
    else PairsOf(selected[..|selected| - 1]) + multiset{PairOf(selected[|selected| - 1])}
  }

  method SelectSpans(candidates: seq<Candidate>) returns (selected: seq<Candidate>)
    ensures selected == SelectedSpans(candidates)
  {
    hide SortedCandidates, Overlap;
    var sorted := SortedCandidates(candidates);
    selected := [];
    for n := 0 to |sorted|
      invariant selected == Greedy(sorted, n)
    {
      if !Clashes(sorted[n], selected) {
        selected := selected + [sorted[n]];
      }
    }
  }

  method CountPairs(selected: seq<Candidate>) returns (counts: map<Pair, nat>)
    ensures forall pair :: pair in counts <==> pair in PairsOf(selected)
    ensures forall pair :: pair in counts ==> counts[pair] == PairsOf(selected)[pair]
  {
    counts := map[];
    for n := 0 to |selected|
      invariant forall pair :: pair in counts <==> pair in PairsOf(selected[..n])
      invariant forall pair :: pair in counts ==> counts[pair] == PairsOf(selected[..n])[pair]
    {
      PairsGrow(selected, n);
      hide PairsOf;
      var pair := PairOf(selected[n]);
      counts := counts[pair := if pair in counts then counts[pair] + 1 else 1];
    }
    assert selected[..|selected|] == selected;
  }

  lemma {:induction false} PairsGrow(selected: seq<Candidate>, n: nat)
    requires n < |selected|
    ensures PairsOf(selected[..n + 1]) == PairsOf(selected[..n]) + multiset{PairOf(selected[n])}
  {
    assert selected[..n + 1][..n] == selected[..n];
  }

  /** `find_glossary_mismatches`; `occurs` counts the matches of a target term in the translation. */
  method FindGlossaryMismatches(candidates: seq<Candidate>, occurs: Text -> nat) returns (missing: set<Pair>)
    ensures forall source, target :: (source, target) in missing <==>
              && Matches(SelectedSpans(candidates), source, target) != {}
              && occurs(target) < |Matches(SelectedSpans(candidates), source, target)|
  {
    hide SelectedSpans, PairsOf, Matches;
    var selected := SelectSpans(candidates);
    var counts := CountPairs(selected);
    missing := set pair | pair in counts && occurs(pair.1) < counts[pair];
    forall source, target
      ensures (source, target) in missing
              <==> Matches(selected, source, target) != {} && occurs(target) < |Matches(selected, source, target)|
    {
      RequiredCountsAddUp(selected, source, target);
    }
  }

  predicate Asks(c: Candidate, source: Text, target: Text) {
    c.source == source && c.target == target
  }

  /** The selected matches of a source term that ask for a target term. */
  function Matches(selected: seq<Candidate>, source: Text, target: Text): set<nat> {
    set i: nat | i < |selected| && Asks(selected[i], source, target)
  }

  /** The required counts add up to the selected matches, and a pair is required as often as it
      was selected. */
  lemma {:induction false} RequiredCountsAddUp(selected: seq<Candidate>, source: Text, target: Text)
    ensures |PairsOf(selected)| == |selected|
    ensures PairsOf(selected)[(source, target)] == |Matches(selected, source, target)|
  {
    assert Matches([], source, target) == {};
    hide Matches;
    if selected != [] {
      var n := |selected| - 1;
      RequiredCountsAddUp(selected[..n], source, target);
      MatchesGrow(selected, source, target);
    }
  }

  lemma {:induction false} MatchesGrow(selected: seq<Candidate>, source: Text, target: Text)
    requires selected != []
    ensures var n := |selected| - 1;
            |Matches(selected, source, target)|
            == |Matches(selected[..n], source, target)|
               + if Asks(selected[n], source, target) then 1 else 0
  {
    hide Asks;
    var n := |selected| - 1;
    var before := Matches(selected[..n], source, target);
    if Asks(selected[n], source, target) {
      assert Matches(selected, source, target) == before + {n};
    } else {
      assert Matches(selected, source, target) == before;
    }
  }

  // ------------------------------------------------------------ the order of the glossary

  /** Unless two terms match the same stretch of text, the order of the glossary does not matter. */
  lemma {:induction false} GlossaryOrderIsIrrelevant(candidates: seq<Candidate>, others: seq<Candidate>)
    requires multiset(candidates) == multiset(others)
    requires forall x, y :: x in candidates && y in candidates && x.start == y.start && x.end == y.end ==> x == y
    ensures SelectedSpans(candidates) == SelectedSpans(others)
  {
    hide Greedy, SortBy, Ordered, Ranks;
    PrecedesRanks();
    SortOrders(Precedes, candidates);
    SortOrders(Precedes, others);
    forall x, y | x in candidates && y in candidates && Precedes(x, y) && Precedes(y, x) ensures x == y {
      assert x.start == y.start && x.end == y.end;
    }
    hide Precedes;
    OneOrder(Precedes, SortedCandidates(candidates), SortedCandidates(others));
  }
}
