/** The stable sort behind `sorted` and `list.sort`, by insertion. */
module Sorting {

  function Insert<T(!new)>(before: (T, T) -> bool, x: T, sorted: seq<T>): (after: seq<T>)
    ensures multiset(after) == multiset{x} + multiset(sorted)
    ensures forall y :: y in after <==> y == x || y in sorted
  {
    if sorted == [] || before(x, sorted[0]) then
      [x] + sorted
    else
      assert sorted == [sorted[0]] + sorted[1..];
      [sorted[0]] + Insert(before, x, sorted[1..])
  }

  /** `before(x, y)` says that `x` need not come after `y`. */
  function SortBy<T(!new)>(before: (T, T) -> bool, s: seq<T>): (sorted: seq<T>)
    ensures multiset(sorted) == multiset(s)
    ensures forall y :: y in sorted <==> y in s
  {
    if s == [] then []
    else
      assert s == [s[0]] + s[1..];
      Insert(before, s[0], SortBy(before, s[1..]))
  }

  ghost predicate Ordered<T>(before: (T, T) -> bool, sorted: seq<T>) {
    sorted == [] || (Ordered(before, sorted[1..]) && forall y :: y in sorted[1..] ==> before(sorted[0], y))
  }

  ghost predicate Ranks<T(!new)>(before: (T, T) -> bool) {
    && (forall x, y :: before(x, y) || before(y, x))
    && (forall x, y, z :: before(x, y) && before(y, z) ==> before(x, z))
  }

  lemma {:induction false} InsertOrders<T(!new)>(before: (T, T) -> bool, x: T, sorted: seq<T>)
    requires Ranks(before) && Ordered(before, sorted)
    ensures Ordered(before, Insert(before, x, sorted))
  {
    if sorted == [] {
      assert [x][1..] == [];
    } else if before(x, sorted[0]) {
      assert ([x] + sorted)[1..] == sorted;
      assert forall y :: y in sorted ==> y == sorted[0] || y in sorted[1..];
    } else {
      InsertOrders(before, x, sorted[1..]);
      var rest := Insert(before, x, sorted[1..]);
      assert ([sorted[0]] + rest)[1..] == rest;
      assert before(sorted[0], x);
    }
  }

  lemma {:induction false} SortOrders<T(!new)>(before: (T, T) -> bool, s: seq<T>)
    requires Ranks(before)
    ensures Ordered(before, SortBy(before, s))
    ensures |SortBy(before, s)| == |s|
  {
    assert |multiset(SortBy(before, s))| == |multiset(s)|;
    if s != [] {
      SortOrders(before, s[1..]);
      InsertOrders(before, s[0], SortBy(before, s[1..]));
    }
  }

  lemma {:induction false} OrderedPair<T>(before: (T, T) -> bool, sorted: seq<T>, i: nat, j: nat)
    requires Ordered(before, sorted) && i < j < |sorted|
    ensures before(sorted[i], sorted[j])
  {
    if i == 0 {
      assert sorted[1..][j - 1] == sorted[j];
    } else {
      OrderedPair(before, sorted[1..], i - 1, j - 1);
    }
  }

  lemma {:induction false} TailOf<T>(s: seq<T>)
    requires s != []
    ensures multiset(s[1..]) == multiset(s) - multiset{s[0]}
    ensures forall x :: x in s[1..] ==> x in s
  {
    assert s == [s[0]] + s[1..];
  }

  lemma {:induction false} HeadComesFirst<T>(before: (T, T) -> bool, sorted: seq<T>, x: T)
    requires Ordered(before, sorted) && x in sorted
    ensures x == sorted[0] || before(sorted[0], x)
  {
  }

  /** Where no two elements rank alike, there is one order only. */
  lemma {:induction false} OneOrder<T(!new)>(before: (T, T) -> bool, a: seq<T>, b: seq<T>)
    requires Ordered(before, a) && Ordered(before, b) && multiset(a) == multiset(b)
    requires forall x, y :: x in a && y in a && before(x, y) && before(y, x) ==> x == y
    ensures a == b
  {
    assert |a| == |multiset(a)| == |multiset(b)| == |b|;
    if a != [] {
      assert a[0] in multiset(b) && b[0] in multiset(a);
      HeadComesFirst(before, a, b[0]);
      HeadComesFirst(before, b, a[0]);
      assert a[0] == b[0];
      TailOf(a);
      TailOf(b);
      OneOrder(before, a[1..], b[1..]);
      assert a == [a[0]] + a[1..] && b == [b[0]] + b[1..];
    }
  }

  // ---------------------------------------------------------------------- stability

  predicate Ties<T>(before: (T, T) -> bool, x: T, y: T) {
    before(x, y) && before(y, x)
  }

  /** The elements that rank like `x`, in the order in which they stand. */
  function TiesOf<T>(before: (T, T) -> bool, x: T, s: seq<T>): seq<T> {
    if s == [] then [] else (if Ties(before, x, s[0]) then [s[0]] else []) + TiesOf(before, x, s[1..])
  }

  lemma {:induction false} TiesCons<T>(before: (T, T) -> bool, x: T, y: T, s: seq<T>)
    ensures TiesOf(before, x, [y] + s) == (if Ties(before, x, y) then [y] else []) + TiesOf(before, x, s)
  {
    assert ([y] + s)[1..] == s;
  }

  lemma {:induction false} TiesApart<T(!new)>(before: (T, T) -> bool, x: T, y: T, z: T)
    requires Ranks(before) && !before(y, z)
    ensures !(Ties(before, x, y) && Ties(before, x, z))
  {
  }

  lemma {:induction false} InsertIsStable<T(!new)>(before: (T, T) -> bool, x: T, e: T, sorted: seq<T>)
    requires Ranks(before)
    ensures TiesOf(before, x, Insert(before, e, sorted))
            == (if Ties(before, x, e) then [e] else []) + TiesOf(before, x, sorted)
  {
    hide TiesOf, Ranks, Ties;
    if sorted == [] || before(e, sorted[0]) {
      TiesCons(before, x, e, sorted);
    } else {
      var head, tail := sorted[0], sorted[1..];
      InsertIsStable(before, x, e, tail);
      TiesApart(before, x, e, head);
      TiesCons(before, x, head, Insert(before, e, tail));
      TiesCons(before, x, head, tail);
      assert [head] + tail == sorted;
    }
  }

  /** Elements that rank alike keep their order. */
  lemma {:induction false} SortIsStable<T(!new)>(before: (T, T) -> bool, x: T, s: seq<T>)
    requires Ranks(before)
    ensures TiesOf(before, x, SortBy(before, s)) == TiesOf(before, x, s)
  {
    if s != [] {
      SortIsStable(before, x, s[1..]);
      InsertIsStable(before, x, s[0], SortBy(before, s[1..]));
    }
  }

  /** `x` stands in `s`, and `y` does not stand before it. */
  predicate StandsBefore<T(==)>(s: seq<T>, x: T, y: T) {
    s != [] && s[0] != y && (s[0] == x || StandsBefore(s[1..], x, y))
  }

  lemma {:induction false} TiesStandAlike<T(!new)>(before: (T, T) -> bool, s: seq<T>, x: T, y: T)
    requires Ranks(before) && Ties(before, x, y)
    ensures StandsBefore(TiesOf(before, y, s), x, y) <==> StandsBefore(s, x, y)
  {
    if s != [] {
      TiesStandAlike(before, s[1..], x, y);
      var rest := TiesOf(before, y, s[1..]);
      assert before(y, y) && Ties(before, y, x);
      assert ([s[0]] + rest)[1..] == rest;
      assert [] + rest == rest;
    }
  }

  lemma {:induction false} FirstOnes<T>(s: seq<T>, i: nat, x: T, y: T)
    requires i < |s| && s[i] == x && y !in s[..i + 1]
    ensures StandsBefore(s, x, y)
  {
    assert s[0] in s[..i + 1];
    if i > 0 {
      assert forall z :: z in s[1..][..i] ==> z in s[..i + 1];
      FirstOnes(s[1..], i - 1, x, y);
    }
  }

  /** Sorting keeps two elements that rank alike the way round they stood. */
  lemma {:induction false} SortKeepsTies<T(!new)>(before: (T, T) -> bool, s: seq<T>, x: T, y: T)
    requires Ranks(before) && Ties(before, x, y)
    ensures StandsBefore(SortBy(before, s), x, y) <==> StandsBefore(s, x, y)
  {
    hide SortBy, TiesOf, StandsBefore, Ties, Ranks;
    SortIsStable(before, y, s);
    TiesStandAlike(before, s, x, y);
    TiesStandAlike(before, SortBy(before, s), x, y);
  }
}
