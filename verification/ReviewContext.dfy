/** Choosing established translations as context for a review, within a byte limit. */
module ReviewContext {
  import opened Texts
  import opened PropertiesSyntax
  import opened PropertiesKeys
  import opened Normalizing
  import opened Ledgers
  import opened Sorting

  const DOT: Rune := 0x2E

  // ------------------------------------------------------------------- related keys

  /** `key.split(".")` */
  function Segments(key: Text): (segments: seq<Text>)
    ensures segments != []
  {
    if key == [] then [[]]
    else
      var rest := Segments(key[1..]);
      if key[0] == DOT then [[]] + rest else [[key[0]] + rest[0]] + rest[1..]
  }

  function Dotted(segments: seq<Text>): Text {
    if segments == [] then []
    else if |segments| == 1 then segments[0]
    else segments[0] + [0x2E] + Dotted(segments[1..])
  }

  /** The segments are what stands between the dots of a key. */
  lemma {:induction false} SegmentsStandBetweenDots(key: Text)
    ensures Dotted(Segments(key)) == key
    ensures forall segment :: segment in Segments(key) ==> Lacks(segment, 0x2E)
  {
    if key != [] {
      SegmentsStandBetweenDots(key[1..]);
      var rest, all := Segments(key[1..]), Segments(key);
      if key[0] == DOT {
        assert all[1..] == rest;
      } else {
        assert all[1..] == rest[1..] && rest == [rest[0]] + rest[1..];
        forall segment | segment in all ensures Lacks(segment, 0x2E) {
          assert rest[0] in rest && (segment == all[0] || segment in rest);
          assert all[0] == [key[0]] + rest[0];
        }
      }
    }
  }

  predicate AgreeUpTo(a: seq<Text>, b: seq<Text>, n: nat) {
    n <= |a| && n <= |b| && forall i :: 0 <= i < n ==> a[i] == b[i]
  }

  /** `_shared_key_prefix_length`: the number of leading segments that two keys share. */
  method SharedKeyPrefixLength(a: Text, b: Text) returns (shared: nat)
    ensures IsSharedLength(a, b, shared)
  {
    hide Segments;
    var x, y := Segments(a), Segments(b);
    shared := 0;
    while shared < |x| && shared < |y| && x[shared] == y[shared]
      invariant AgreeUpTo(x, y, shared)
      decreases |x| - shared
    {
      shared := shared + 1;
    }
  }

  ghost predicate IsSharedLength(a: Text, b: Text, n: nat) {
    AgreeUpTo(Segments(a), Segments(b), n) && forall m: nat :: AgreeUpTo(Segments(a), Segments(b), m) ==> m <= n
  }

  /** The largest number of segments shared with a reviewed key. */
  ghost predicate IsStrongest(key: Text, reviewed: seq<Text>, n: nat) {
    && (exists i :: 0 <= i < |reviewed| && IsSharedLength(key, reviewed[i], n))
    && (forall i, m: nat :: 0 <= i < |reviewed| && IsSharedLength(key, reviewed[i], m) ==> m <= n)
  }

  method StrongestPrefix(key: Text, reviewed: seq<Text>) returns (strongest: nat)
    requires reviewed != []
    ensures IsStrongest(key, reviewed, strongest)
  {
    hide AgreeUpTo;
    strongest := SharedKeyPrefixLength(key, reviewed[0]);
    for i := 1 to |reviewed|
      invariant exists j :: 0 <= j < i && IsSharedLength(key, reviewed[j], strongest)
      invariant forall j, m: nat :: 0 <= j < i && IsSharedLength(key, reviewed[j], m) ==> m <= strongest
    {
      var shared := SharedKeyPrefixLength(key, reviewed[i]);
      if shared > strongest {
        strongest := shared;
      }
    }
  }

  // -------------------------------------------------------------- size of the excerpts

  function RuneBytes(c: Rune): nat {
    if c < 0x80 then 1 else if c < 0x800 then 2 else if c < 0x1_0000 then 3 else 4
  }

  /** `len(t.encode("utf-8"))` */
  function Utf8Length(t: Text): nat {
    if t == [] then 0 else Utf8Length(t[..|t| - 1]) + RuneBytes(t[|t| - 1])
  }

  lemma {:induction false} Utf8Append(a: Text, b: Text)
    ensures Utf8Length(a + b) == Utf8Length(a) + Utf8Length(b)
  {
    if b == [] {
      assert a + b == a;
    } else {
      Utf8Append(a, b[..|b| - 1]);
      assert (a + b)[..|a + b| - 1] == a + b[..|b| - 1];
    }
  }

  /** The encoding of a code point in UTF-8, section 3 of RFC 3629. */
  function Utf8(c: Rune): seq<int> {
    var v := c as int;
    if v < 0x80 then [v]
    else if v < 0x800 then [0xC0 + v / 0x40, 0x80 + v % 0x40]
    else if v < 0x1_0000 then [0xE0 + v / 0x1000, 0x80 + v / 0x40 % 0x40, 0x80 + v % 0x40]
    else [0xF0 + v / 0x4_0000, 0x80 + v / 0x1000 % 0x40, 0x80 + v / 0x40 % 0x40, 0x80 + v % 0x40]
  }

  /** What a sequence of UTF-8 bytes stands for: the bits behind the marks of its bytes. */
  function Bits(bytes: seq<int>): int {
    if |bytes| == 1 then bytes[0]
    else if |bytes| == 2 then (bytes[0] - 0xC0) * 0x40 + (bytes[1] - 0x80)
    else if |bytes| == 3 then (bytes[0] - 0xE0) * 0x1000 + (bytes[1] - 0x80) * 0x40 + (bytes[2] - 0x80)
    else if |bytes| == 4 then
      (bytes[0] - 0xF0) * 0x4_0000 + (bytes[1] - 0x80) * 0x1000 + (bytes[2] - 0x80) * 0x40 + (bytes[3] - 0x80)
    else -1
  }

  lemma {:induction false} SixBits(v: int)
    requires v >= 0
    ensures v == v / 0x40 * 0x40 + v % 0x40
    ensures v / 0x40 / 0x40 == v / 0x1000 && v / 0x1000 / 0x40 == v / 0x4_0000
  {
  }

  lemma {:induction false} Utf8Decodes(c: Rune)
    ensures Bits(Utf8(c)) == c as int && |Utf8(c)| == RuneBytes(c)
    ensures forall i :: 0 <= i < |Utf8(c)| ==> 0 <= Utf8(c)[i] < 0x100 && (i > 0 <==> 0x80 <= Utf8(c)[i] < 0xC0)
  {
    var v := c as int;
    SixBits(v);
    SixBits(v / 0x40);
    SixBits(v / 0x1000);
    if v < 0x80 {
    } else if v < 0x800 {
      assert Utf8(c) == [0xC0 + v / 0x40, 0x80 + v % 0x40];
    } else if v < 0x1_0000 {
      assert Utf8(c) == [0xE0 + v / 0x1000, 0x80 + v / 0x40 % 0x40, 0x80 + v % 0x40];
    } else {
      assert Utf8(c) == [0xF0 + v / 0x4_0000, 0x80 + v / 0x1000 % 0x40, 0x80 + v / 0x40 % 0x40, 0x80 + v % 0x40];
    }
  }

  function Utf8Text(t: Text): seq<int> {
    if t == [] then [] else Utf8(t[0]) + Utf8Text(t[1..])
  }

  /** The length that is counted is the number of bytes of the encoded text. */
  lemma {:induction false} LengthIsInBytes(t: Text)
    ensures Utf8Length(t) == |Utf8Text(t)|
  {
    if t != [] {
      LengthIsInBytes(t[1..]);
      Utf8Decodes(t[0]);
      Utf8Append([t[0]], t[1..]);
      assert [t[0]] + t[1..] == t && [t[0]][..0] == [];
      assert Utf8Length([t[0]]) == Utf8Length([]) + RuneBytes(t[0]);
    }
  }

  function ReviewLine(values: Values, key: Text): Text {
    EscapeKey(key) + [EQUALS] + Get(values, key)
  }

  /** A line of an excerpt splits at its equals sign into the encoded key and the value, unless the
      value starts with whitespace. */
  lemma {:induction false} ExcerptLineSplits(values: Values, key: Text)
    requires key in values && (values[key] != [] ==> !IsSpace(values[key][0]))
    ensures SplitPropertyLine(ReviewLine(values, key)) == Some(SplitLine(EscapeKey(key), [0x3D], values[key]))
  {
    EncodedLineSplits(key, values[key]);
  }

  /** `_build_properties_review_content` */
  function ReviewContent(values: Values, keys: seq<Text>): Text {
    if keys == [] then []
    else if |keys| == 1 then ReviewLine(values, keys[0])
    else ReviewContent(values, keys[..|keys| - 1]) + [NEWLINE] + ReviewLine(values, keys[|keys| - 1])
  }

  function ContextSize(source: Values, target: Values, keys: seq<Text>): nat {
    Utf8Length(ReviewContent(source, keys)) + Utf8Length(ReviewContent(target, keys))
  }

  /** The size of the excerpts is the sum of the sizes of their lines and separators. */
  lemma {:induction false} ContentGrows(values: Values, keys: seq<Text>, key: Text)
    ensures Utf8Length(ReviewContent(values, keys + [key]))
            == Utf8Length(ReviewContent(values, keys)) + (if keys == [] then 0 else 1)
                + Utf8Length(ReviewLine(values, key))
    ensures Utf8Length(ReviewLine(values, key)) > 0
  {
    Utf8Append(EscapeKey(key) + [EQUALS], Get(values, key));
    Utf8Append(EscapeKey(key), [EQUALS]);
    assert Utf8Length([EQUALS]) == 1 && Utf8Length([NEWLINE]) == 1;
    hide ReviewLine;
    assert (keys + [key])[..|keys|] == keys;
    if keys != [] {
      Utf8Append(ReviewContent(values, keys) + [NEWLINE], ReviewLine(values, key));
      Utf8Append(ReviewContent(values, keys), [NEWLINE]);
    }
  }

  lemma {:induction false} SizeGrows(source: Values, target: Values, keys: seq<Text>, key: Text)
    ensures ContextSize(source, target, keys + [key]) == ContextSize(source, target, keys)
            + LineSize(source, target, keys == [], key)
  {
    ContentGrows(source, keys, key);
    ContentGrows(target, keys, key);
  }

  function LineSize(source: Values, target: Values, first: bool, key: Text): nat {
    (if first then 0 else 2) + Utf8Length(ReviewLine(source, key)) + Utf8Length(ReviewLine(target, key))
  }

  /** Context that was too large with a key stays too large with it when other keys join. */
  lemma {:induction false} SizeIsMonotone(source: Values, target: Values, keys: seq<Text>, more: seq<Text>, key: Text)
    ensures ContextSize(source, target, keys + [key]) <= ContextSize(source, target, keys + more + [key])
    decreases |more|
  {
    hide ContextSize;
    if more == [] {
      assert keys + more == keys;
    } else {
      SizeIsMonotone(source, target, keys + [more[0]], more[1..], key);
      assert keys + [more[0]] + more[1..] == keys + more;
      SizeGrows(source, target, keys, key);
      SizeGrows(source, target, keys + [more[0]], key);
      SizeGrows(source, target, keys, more[0]);
    }
  }

  // ----------------------------------------------------------------------- ranking

  /** A candidate, how closely it is related, and its place in the file. */
  datatype Ranked = Ranked(prefix: nat, place: nat, key: Text)

  predicate RanksBefore(x: Ranked, y: Ranked) {
    x.prefix > y.prefix || (x.prefix == y.prefix && x.place <= y.place)
  }

  /** An established translation that may serve as context. */
  predicate Eligible(source: Values, target: Values, excluded: set<Text>, key: Text) {
    && key !in excluded && key in source && NonBlank(source[key])
    && key in target && NonBlank(target[key]) && !Same(source[key], target[key])
  }

  /** The ranked candidates: every eligible key that shares a segment with a reviewed one, once. */
  ghost predicate AreCandidates(source: Values, target: Values, excluded: set<Text>, order: seq<Text>,
        reviewed: seq<Text>,
                                n: nat, ranked: seq<Ranked>)
    requires n <= |order|
  {
    && (forall r :: r in ranked ==>
          r.place < n && r.key == order[r.place] && Eligible(source, target, excluded, r.key)
          && IsStrongest(r.key, reviewed, r.prefix) && r.prefix >= 1)
    && (forall i, m: nat :: 0 <= i < n && Eligible(source, target, excluded, order[i])
                            && IsStrongest(order[i], reviewed, m) && m >= 1 ==>
          Ranked(m, i, order[i]) in ranked)
    && (forall i, j :: 0 <= i < j < |ranked| ==> ranked[i].place < ranked[j].place)
  }

  /** A translation that may serve as context: it and its source are not blank, and they differ. */
  predicate Established(source: Values, target: Values, key: Text) {
    && key in source && key in target && NonBlank(source[key]) && NonBlank(target[key])
    && Normalize(target[key]) != Normalize(source[key])
  }

  /** The ranking: every established key that is neither excluded nor reviewed and shares a segment
      with a reviewed one, once, the more closely related before the less, and earlier before later. */
  ghost predicate IsRanking(source: Values, target: Values, excluded: set<Text>, order: seq<Text>,
                            reviewed: seq<Text>, ranked: seq<Ranked>)
  {
    && (forall r :: r in ranked ==>
          && r.place < |order| && r.key == order[r.place] && r.key !in excluded && r.key !in reviewed
          && Established(source, target, r.key) && IsStrongest(r.key, reviewed, r.prefix) && r.prefix >= 1)
    && (forall i, m: nat :: 0 <= i < |order| && order[i] !in excluded && order[i] !in reviewed
                            && Established(source, target, order[i]) && IsStrongest(order[i], reviewed, m) && m >= 1 ==>
          Ranked(m, i, order[i]) in ranked)
    && (forall i, j :: 0 <= i < j < |ranked| ==>
          ranked[i].prefix > ranked[j].prefix
          || (ranked[i].prefix == ranked[j].prefix && ranked[i].place < ranked[j].place))
  }

  lemma {:induction false} EligibleIsEstablished(source: Values, target: Values, excluded: set<Text>,
        reviewed: seq<Text>, key: Text)
    ensures Eligible(source, target, excluded + (set k | k in reviewed), key)
            <==> key !in excluded && key !in reviewed && Established(source, target, key)
  {
    hide Normalize, NonBlank;
  }

  lemma {:induction false} Twice<T>(s: seq<T>, i: nat, j: nat)
    requires i < j < |s| && s[i] == s[j]
    ensures multiset(s)[s[i]] >= 2
  {
    assert s == s[..j] + s[j..];
    assert s[i] in s[..j] && s[i] in s[j..];
  }

  lemma {:induction false} PlacedOnce(ranked: seq<Ranked>, r: Ranked)
    requires forall i, j :: 0 <= i < j < |ranked| ==> ranked[i].place < ranked[j].place
    ensures multiset(ranked)[r] <= 1
  {
    if ranked != [] {
      var n := |ranked| - 1;
      PlacedOnce(ranked[..n], r);
      assert ranked == ranked[..n] + [ranked[n]];
      assert r in ranked[..n] ==> r.place < ranked[n].place;
    }
  }

  lemma {:induction false} RankedStrictly(found: seq<Ranked>, i: nat, j: nat)
    requires forall x, y :: x in found && y in found && x.place == y.place ==> x.key == y.key
    requires forall k, m :: 0 <= k < m < |found| ==> found[k].place < found[m].place
    requires i < j < |SortBy(RanksBefore, found)|
    ensures var x, y := SortBy(RanksBefore, found)[i], SortBy(RanksBefore, found)[j];
            x.prefix > y.prefix || (x.prefix == y.prefix && x.place < y.place)
  {
    hide SortBy, Ordered, Ranks;
    var ranked := SortBy(RanksBefore, found);
    RanksAreTotal();
    SortOrders(RanksBefore, found);
    OrderedPair(RanksBefore, ranked, i, j);
    if ranked[i] == ranked[j] {
      Twice(ranked, i, j);
      PlacedOnce(found, ranked[i]);
    }
    assert ranked[i] in found && ranked[j] in found;
  }

  lemma {:induction false} SortedIsRanking(source: Values, target: Values, excluded: set<Text>, order: seq<Text>,
        reviewed: seq<Text>, found: seq<Ranked>)
    requires AreCandidates(source, target, excluded + (set k | k in reviewed), order, reviewed, |order|, found)
    ensures IsRanking(source, target, excluded, order, reviewed, SortBy(RanksBefore, found))
  {
    var ranked := SortBy(RanksBefore, found);
    hide Eligible, Established, SortBy, IsStrongest, RanksBefore, IsRanking;
    assert forall r :: r in ranked <==> r in found;
    forall i, j | 0 <= i < j < |ranked|
      ensures ranked[i].prefix > ranked[j].prefix
              || (ranked[i].prefix == ranked[j].prefix && ranked[i].place < ranked[j].place)
    {
      RankedStrictly(found, i, j);
    }
    CandidatesRank(source, target, excluded, order, reviewed, found, ranked);
  }

  lemma {:induction false} CandidatesRank(source: Values, target: Values, excluded: set<Text>, order: seq<Text>,
        reviewed: seq<Text>, found: seq<Ranked>, ranked: seq<Ranked>)
    requires AreCandidates(source, target, excluded + (set k | k in reviewed), order, reviewed, |order|, found)
    requires forall r :: r in ranked <==> r in found
    requires forall i, j :: 0 <= i < j < |ranked| ==>
               ranked[i].prefix > ranked[j].prefix
               || (ranked[i].prefix == ranked[j].prefix && ranked[i].place < ranked[j].place)
    ensures IsRanking(source, target, excluded, order, reviewed, ranked)
  {
    var all := excluded + set k | k in reviewed;
    hide Eligible, Established, IsStrongest;
    forall r | r in ranked
      ensures r.place < |order| && r.key == order[r.place] && r.key !in excluded && r.key !in reviewed
              && Established(source, target, r.key) && IsStrongest(r.key, reviewed, r.prefix) && r.prefix >= 1
    {
      EligibleIsEstablished(source, target, excluded, reviewed, r.key);
    }
    forall i, m: nat | 0 <= i < |order| && order[i] !in excluded && order[i] !in reviewed
                       && Established(source, target, order[i]) && IsStrongest(order[i], reviewed, m) && m >= 1
      ensures Ranked(m, i, order[i]) in ranked
    {
      EligibleIsEstablished(source, target, excluded, reviewed, order[i]);
      assert Eligible(source, target, all, order[i]);
    }
  }

  method CollectCandidates(source: Values, target: Values, excluded: set<Text>, order: seq<Text>, reviewed: seq<Text>)
      returns (ranked: seq<Ranked>)
    requires reviewed != []
    ensures AreCandidates(source, target, excluded, order, reviewed, |order|, ranked)
  {
    hide Eligible, IsStrongest;
    ranked := [];
    for i := 0 to |order|
      invariant AreCandidates(source, target, excluded, order, reviewed, i, ranked)
    {
      var key := order[i];
      if Eligible(source, target, excluded, key) {
        var strongest := StrongestPrefix(key, reviewed);
        forall m | IsStrongest(key, reviewed, m) ensures m == strongest {
          StrongestIsOne(key, reviewed, m, strongest);
        }
        if strongest >= 1 {
          ranked := ranked + [Ranked(strongest, i, key)];
        }
      }
    }
  }

  lemma {:induction false} StrongestIsOne(key: Text, reviewed: seq<Text>, m: nat, n: nat)
    requires IsStrongest(key, reviewed, m) && IsStrongest(key, reviewed, n)
    ensures m == n
  {
    hide IsSharedLength;
  }

  // ---------------------------------------------------------------------- selection

  /** Taken in ranking order: a key that would exceed the limit is passed over, a full selection ends. */
  function Chosen(source: Values, target: Values, ranked: seq<Ranked>, cap: nat, limit: nat, n: nat): seq<Text>
    requires n <= |ranked|
  {
    if n == 0 then []
    else
      var before := Chosen(source, target, ranked, cap, limit, n - 1);
      if |before| >= cap || ContextSize(source, target, before + [ranked[n - 1].key]) > limit then before
      else before + [ranked[n - 1].key]
  }

  /** A subsequence of the ranked keys. */
  ghost predicate InRankingOrder(ranked: seq<Ranked>, n: nat, keys: seq<Text>)
    requires n <= |ranked|
  {
    if keys == [] then true
    else n > 0 && (InRankingOrder(ranked, n - 1, keys)
                   || (keys[|keys| - 1] == ranked[n - 1].key && InRankingOrder(ranked, n - 1, keys[..|keys| - 1])))
  }

  lemma {:induction false} ChosenIsBounded(source: Values, target: Values, ranked: seq<Ranked>, cap: nat, limit: nat,
        n: nat)
    requires n <= |ranked|
    ensures var chosen := Chosen(source, target, ranked, cap, limit, n);
            && |chosen| <= cap && ContextSize(source, target, chosen) <= limit
            && InRankingOrder(ranked, n, chosen)
  {
    if n == 0 {
      assert ContextSize(source, target, []) == 0;
    } else {
      ChosenIsBounded(source, target, ranked, cap, limit, n - 1);
      hide ContextSize;
      var before := Chosen(source, target, ranked, cap, limit, n - 1);
      assert (before + [ranked[n - 1].key])[..|before|] == before;
    }
  }

  lemma {:induction false} ChosenGrows(source: Values, target: Values, ranked: seq<Ranked>, cap: nat, limit: nat,
        m: nat, n: nat)
    requires m <= n <= |ranked|
    ensures Chosen(source, target, ranked, cap, limit, m) <= Chosen(source, target, ranked, cap, limit, n)
  {
    hide ContextSize;
    if m < n { ChosenGrows(source, target, ranked, cap, limit, m, n - 1); }
  }

  /** Unless the selection is full, no candidate that was passed over would still fit. */
  lemma {:induction false} ChosenIsMaximal(source: Values, target: Values, ranked: seq<Ranked>, cap: nat, limit: nat,
        i: nat)
    requires i < |ranked|
    ensures var chosen := Chosen(source, target, ranked, cap, limit, |ranked|);
            |chosen| < cap && ranked[i].key !in chosen ==> ContextSize(source, target, chosen + [ranked[i].key]) > limit
  {
    hide *;
    var chosen := Chosen(source, target, ranked, cap, limit, |ranked|);
    var before, after := Chosen(source, target, ranked, cap, limit, i),
        Chosen(source, target, ranked, cap, limit, i + 1);
    ChosenStep(source, target, ranked, cap, limit, i);
    ChosenGrows(source, target, ranked, cap, limit, i, |ranked|);
    ChosenGrows(source, target, ranked, cap, limit, i + 1, |ranked|);
    TooLargeStaysTooLarge(source, target, before, after, chosen, ranked[i].key, cap, limit);
  }

  lemma {:induction false} TooLargeStaysTooLarge(source: Values, target: Values, before: seq<Text>, after: seq<Text>,
        chosen: seq<Text>,
                              key: Text, cap: nat, limit: nat)
    requires before <= chosen && after <= chosen
    requires |before| >= cap || ContextSize(source, target, before + [key]) > limit || after == before + [key]
    ensures |chosen| < cap && key !in chosen ==> ContextSize(source, target, chosen + [key]) > limit
  {
    hide ContextSize;
    if after == before + [key] {
      assert chosen[|before|] == after[|before|] == key;
    }
    if |chosen| < cap && key !in chosen {
      assert chosen == before + chosen[|before|..];
      SizeIsMonotone(source, target, before, chosen[|before|..], key);
    }
  }

  lemma {:induction false} ChosenStep(source: Values, target: Values, ranked: seq<Ranked>, cap: nat, limit: nat, i: nat)
    requires i < |ranked|
    ensures var before, after := Chosen(source, target, ranked, cap, limit, i),
            Chosen(source, target, ranked, cap, limit, i + 1);
            || |before| >= cap
            || (ContextSize(source, target, before + [ranked[i].key]) > limit)
            || after == before + [ranked[i].key]
  {
    hide ContextSize;
  }

  /** `_select_holistic_review_context_keys` for `.properties` files. */
  method SelectReviewContextKeys(source: Values, target: Values, order: seq<Text>, reviewed: seq<Text>,
        excluded: set<Text>,
                                 cap: int, limit: int) returns (selected: seq<Text>, ghost ranked: seq<Ranked>)
    ensures reviewed == [] || cap <= 0 || limit <= 0 ==> selected == []
    ensures reviewed != [] && cap > 0 && limit > 0 ==>
              && IsRanking(source, target, excluded, order, reviewed, ranked)
              && selected == Chosen(source, target, ranked, cap, limit, |ranked|)
  {
    hide Eligible, AreCandidates, ContextSize, SortBy, RanksBefore, IsRanking;
    selected, ranked := [], [];
    if reviewed == [] || cap <= 0 || limit <= 0 {
      return;
    }
    var candidates := CollectCandidates(source, target, excluded + (set k | k in reviewed), order, reviewed);
    var sorted := SortBy(RanksBefore, candidates);
    ranked := sorted;
    SortedIsRanking(source, target, excluded, order, reviewed, candidates);
    for n := 0 to |sorted|
      invariant selected == Chosen(source, target, sorted, cap, limit, n)
    {
      if |selected| >= cap {
        FullStaysFull(source, target, sorted, cap, limit, n, |sorted|);
        return;
      }
      if ContextSize(source, target, selected + [sorted[n].key]) <= limit {
        selected := selected + [sorted[n].key];
      }
    }
  }

  lemma {:induction false} RanksAreTotal()
    ensures Ranks(RanksBefore)
  {
  }

  lemma {:induction false} FullStaysFull(source: Values, target: Values, ranked: seq<Ranked>, cap: nat, limit: nat,
        m: nat, n: nat)
    requires m <= n <= |ranked| && |Chosen(source, target, ranked, cap, limit, m)| >= cap
    ensures Chosen(source, target, ranked, cap, limit, n) == Chosen(source, target, ranked, cap, limit, m)
  {
    hide ContextSize;
    if m < n { FullStaysFull(source, target, ranked, cap, limit, m, n - 1); }
  }
}
