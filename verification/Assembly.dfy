/** Collecting the answers of memory and model in any order, and writing them to their lines. */
module Assembly {
  import opened Texts
  import opened PropertiesFile
  import opened Entries
  import opened Normalizing
  import opened Ledgers
  import opened Selection
  import opened Memory
  import opened Sorting

  // ------------------------------------------------------------------- memory reuse

  /** A translation for the job at `position`, and whether it succeeded. */
  datatype Result = Result(position: nat, value: Text, ok: bool)

  /** The translation memory of a run, if it has one, and how a text is looked up in it. */
  datatype Recall = Recall(store: Option<Store>, provenance: Text -> Provenance)
  {
    function Find(text: Text): Option<Text> {
      if store.None? then None
      else LookupKey(store.value, EntryKey(provenance(text)), provenance(text).fingerprint)
    }
  }

  /** A remembered translation that may be used: never one that equals the source. */
  function Reused(p: Policy, recall: Recall, job: Job): (r: Option<Text>)
    ensures r.Some? ==> !Same(r.value, job.text) && recall.Find(job.text) == r
  {
    var cached := recall.Find(job.text);
    if cached.None? then None
    else if p.Accepts(job.key, job.text, job.text) && cached.value != job.text then None
    else if Same(cached.value, job.text) then None
    else cached
  }

  function CachedResults(p: Policy, recall: Recall, jobs: seq<Job>, n: nat): seq<Result>
    requires n <= |jobs|
  {
    if n == 0 then []
    else
      var before, reused := CachedResults(p, recall, jobs, n - 1), Reused(p, recall, jobs[n - 1]);
      if reused.Some? then before + [Result(n - 1, reused.value, true)] else before
  }

  function PendingPositions(p: Policy, recall: Recall, jobs: seq<Job>, n: nat): seq<nat>
    requires n <= |jobs|
  {
    if n == 0 then []
    else
      var before := PendingPositions(p, recall, jobs, n - 1);
      if Reused(p, recall, jobs[n - 1]).None? then before + [n - 1] else before
  }

  /** `apply_translation_memory` */
  method ApplyTranslationMemory(p: Policy, memory: TranslationMemory?, provenance: Text -> Provenance, jobs: seq<Job>)
      returns (cached: seq<Result>, pending: seq<nat>)
    ensures var recall := Recall(if memory == null then None else Some(memory.entries), provenance);
            && cached == CachedResults(p, recall, jobs, |jobs|)
            && pending == PendingPositions(p, recall, jobs, |jobs|)
  {
    hide Normalize, LookupKey, EntryKey;
    cached, pending := [], [];
    ghost var recall := Recall(if memory == null then None else Some(memory.entries), provenance);
    for position := 0 to |jobs|
      invariant cached == CachedResults(p, recall, jobs, position)
      invariant pending == PendingPositions(p, recall, jobs, position)
    {
      var job := jobs[position];
      var found := None;
      if memory != null {
        found := memory.Lookup(EntryKey(provenance(job.text)), provenance(job.text).fingerprint);
      }
      if found.Some? && p.Accepts(job.key, job.text, job.text) && found.value != job.text {
        found := None;
      }
      if found.Some? && !Same(found.value, job.text) {
        cached := cached + [Result(position, found.value, true)];
      } else {
        pending := pending + [position];
      }
    }
  }

  /** The positions below `n` that have no result, and only those, are pending. */
  ghost predicate Complementary(cached: seq<Result>, pending: seq<nat>, n: nat) {
    forall i :: i in pending <==> 0 <= i < n && !HasPosition(cached, i)
  }

  /** Every position is either answered from memory or left to the model, never both. */
  lemma {:induction false} MemoryPlanIsAPartition(p: Policy, recall: Recall, jobs: seq<Job>, n: nat)
    requires n <= |jobs|
    ensures Positioned(CachedResults(p, recall, jobs, n), n)
    ensures Complementary(CachedResults(p, recall, jobs, n), PendingPositions(p, recall, jobs, n), n)
  {
    hide Reused, Positioned, Complementary, CachedResults, PendingPositions, Same;
    PlanStep(p, recall, jobs, n);
    if n == 0 {
      NothingPlanned();
    } else {
      MemoryPlanIsAPartition(p, recall, jobs, n - 1);
      var cached, pending := CachedResults(p, recall, jobs, n - 1), PendingPositions(p, recall, jobs, n - 1);
      if Reused(p, recall, jobs[n - 1]).Some? {
        OneMoreCached(cached, pending, n - 1, Result(n - 1, Reused(p, recall, jobs[n - 1]).value, true));
      } else {
        OneMorePending(cached, pending, n - 1);
      }
    }
  }

  lemma {:induction false} PlanStep(p: Policy, recall: Recall, jobs: seq<Job>, n: nat)
    requires n <= |jobs|
    ensures n == 0 ==> CachedResults(p, recall, jobs, n) == [] && PendingPositions(p, recall, jobs, n) == []
    ensures n > 0 ==>
              var reused := Reused(p, recall, jobs[n - 1]);
              var cached, pending := CachedResults(p, recall, jobs, n - 1), PendingPositions(p, recall, jobs, n - 1);
              && CachedResults(p, recall, jobs, n)
                 == (if reused.Some? then cached + [Result(n - 1, reused.value, true)] else cached)
              && PendingPositions(p, recall, jobs, n) == (if reused.Some? then pending else pending + [n - 1])
  {
    hide Reused, Same;
  }

  lemma {:induction false} NothingPlanned()
    ensures Positioned([], 0) && Complementary([], [], 0)
  {
  }

  lemma {:induction false} OneMoreCached(cached: seq<Result>, pending: seq<nat>, n: nat, r: Result)
    requires Positioned(cached, n) && Complementary(cached, pending, n) && r.position == n
    ensures Positioned(cached + [r], n + 1) && Complementary(cached + [r], pending, n + 1)
  {
    hide HasPosition;
    assert forall j :: 0 <= j < |cached| ==> (cached + [r])[j] == cached[j];
    forall i ensures i in pending <==> 0 <= i < n + 1 && !HasPosition(cached + [r], i) {
      HasPositionAppend(cached, r, i);
    }
  }

  lemma {:induction false} OneMorePending(cached: seq<Result>, pending: seq<nat>, n: nat)
    requires Positioned(cached, n) && Complementary(cached, pending, n)
    ensures Positioned(cached, n + 1) && Complementary(cached, pending + [n], n + 1)
  {
    NotYetThere(cached, n);
    hide HasPosition;
  }

  lemma {:induction false} NotYetThere(cached: seq<Result>, n: nat)
    requires Positioned(cached, n)
    ensures !HasPosition(cached, n)
  {
  }

  // --------------------------------------------------------------- collecting results

  predicate HasPosition(results: seq<Result>, i: int) {
    exists j :: 0 <= j < |results| && results[j].position == i
  }

  lemma {:induction false} HasPositionAppend(results: seq<Result>, r: Result, i: int)
    ensures HasPosition(results + [r], i) <==> HasPosition(results, i) || i == r.position
  {
    assert (results + [r])[|results|] == r;
    assert forall j :: 0 <= j < |results| ==> (results + [r])[j] == results[j];
  }

  /** Each position below `n` at most once, and no other. */
  ghost predicate Positioned(results: seq<Result>, n: nat) {
    && (forall j :: 0 <= j < |results| ==> results[j].position < n)
    && (forall j, k :: 0 <= j < k < |results| ==> results[j].position != results[k].position)
  }

  function FindPosition(results: seq<Result>, i: nat): (r: Option<Result>)
    ensures r.Some? <==> HasPosition(results, i)
    ensures r.Some? ==> r.value in results && r.value.position == i
  {
    if results == [] then None
    else if results[|results| - 1].position == i then
      assert HasPosition(results, i);
      Some(results[|results| - 1])
    else
      assert results == results[..|results| - 1] + [results[|results| - 1]];
      HasPositionAppend(results[..|results| - 1], results[|results| - 1], i);
      FindPosition(results[..|results| - 1], i)
  }

  /** What a result may fall back on. */
  datatype Backing = Backing(source: Values, existing: Values, ledger: Ledger)

  /** `prefer_existing_translation_on_failure`, for one result. */
  function Repaired(p: Policy, jobs: seq<Job>, b: Backing, r: Result): (after: Result)
    ensures after.position == r.position && after.ok == r.ok
  {
    if r.ok || r.position >= |jobs| then r
    else
      var existing := VerifiedExisting(p, jobs[r.position].key, b.source, b.existing, b.ledger);
      if existing.Some? then r.(value := existing.value) else r
  }

  function Fallback(jobs: seq<Job>, b: Backing, i: nat): Result
    requires i < |jobs|
  {
    Result(i, if jobs[i].key in b.source then b.source[jobs[i].key] else jobs[i].text, false)
  }

  /** The result that a position ends up with. */
  function Answer(p: Policy, jobs: seq<Job>, b: Backing, results: seq<Result>, i: nat): Result
    requires i < |jobs|
  {
    var found := FindPosition(results, i);
    Repaired(p, jobs, b, if found.Some? then found.value else Fallback(jobs, b, i))
  }

  /** Strictly increasing positions. */
  predicate Increasing(results: seq<Result>) {
    results == [] || (Increasing(results[1..]) && forall x :: x in results[1..] ==> results[0].position < x.position)
  }

  predicate NotLater(x: Result, y: Result) {
    x.position <= y.position
  }

  /** `results.sort(key=position)` */
  function SortedByPosition(results: seq<Result>): (sorted: seq<Result>)
    ensures forall x :: x in sorted <==> x in results
  {
    SortBy(NotLater, results)
  }

  lemma {:induction false} IncreasingCons(r: Result, rest: seq<Result>)
    ensures Increasing([r] + rest) <==> Increasing(rest) && forall x :: x in rest ==> r.position < x.position
  {
    assert ([r] + rest)[1..] == rest;
  }

  lemma {:induction false} InsertIncreases(r: Result, sorted: seq<Result>)
    requires Increasing(sorted) && forall x :: x in sorted ==> x.position != r.position
    ensures Increasing(Insert(NotLater, r, sorted))
  {
    hide Increasing;
    if sorted == [] {
      IncreasingCons(r, []);
    } else {
      assert sorted == [sorted[0]] + sorted[1..];
      IncreasingCons(sorted[0], sorted[1..]);
      if r.position <= sorted[0].position {
        IncreasingCons(r, sorted);
      } else {
        InsertIncreases(r, sorted[1..]);
        IncreasingCons(sorted[0], Insert(NotLater, r, sorted[1..]));
      }
    }
  }

  lemma {:induction false} SortIncreases(results: seq<Result>, n: nat)
    requires Positioned(results, n)
    ensures Increasing(SortedByPosition(results))
  {
    if results == [] {
    } else {
      assert forall j, k :: 0 <= j < k < |results[1..]| ==> results[1..][j] == results[j + 1]
                                                            && results[1..][k] == results[k + 1];
      SortIncreases(results[1..], n);
      forall x | x in results[1..] ensures x.position != results[0].position {
        var j :| 0 <= j < |results[1..]| && results[1..][j] == x;
        assert results[j + 1] == x;
      }
      hide Increasing;
      InsertIncreases(results[0], SortedByPosition(results[1..]));
    }
  }

  lemma {:induction false} PositionsAtLeast(sorted: seq<Result>, lo: nat, j: nat)
    requires Increasing(sorted) && j < |sorted| && forall x :: x in sorted ==> x.position >= lo
    ensures sorted[j].position >= lo + j
  {
    if j > 0 { PositionsAtLeast(sorted[1..], lo + 1, j - 1); }
  }

  /** Sorted results that have every position below `n` once carry position `i` at index `i`. */
  lemma {:induction false} SortedIsComplete(sorted: seq<Result>, n: nat, i: nat)
    requires Increasing(sorted) && i < n
    requires forall j :: 0 <= j < n ==> HasPosition(sorted, j)
    ensures i < |sorted| && sorted[i].position == i
  {
    hide Increasing;
    assert HasPosition(sorted, i);
    var j :| 0 <= j < |sorted| && sorted[j].position == i;
    PositionsAtLeast(sorted, 0, j);
    if j < i {
      SortedIsComplete(sorted, n, j);
    }
  }

  /** Fallback results for the positions below `n` that nothing answered. */
  function Missing(jobs: seq<Job>, b: Backing, results: seq<Result>, n: nat): seq<Result>
    requires n <= |jobs|
  {
    if n == 0 then []
    else
      var before := Missing(jobs, b, results, n - 1);
      if HasPosition(results, n - 1) then before else before + [Fallback(jobs, b, n - 1)]
  }

  function RepairedAll(p: Policy, jobs: seq<Job>, b: Backing, results: seq<Result>): (after: seq<Result>)
  {
    seq(|results|, j requires 0 <= j < |results| => Repaired(p, jobs, b, results[j]))
  }

  /** All results of a run, sorted: what memory and model answered, and a fallback for the rest. */
  function Collected(p: Policy, jobs: seq<Job>, b: Backing, results: seq<Result>): seq<Result> {
    SortedByPosition(RepairedAll(p, jobs, b, results + Missing(jobs, b, results, |jobs|)))
  }

  lemma {:induction false} MissingFills(jobs: seq<Job>, b: Backing, results: seq<Result>, n: nat)
    requires n <= |jobs| && Positioned(results, |jobs|)
    ensures var all := results + Missing(jobs, b, results, n);
            && Positioned(all, |jobs|)
            && forall i :: HasPosition(all, i) <==> HasPosition(results, i) || 0 <= i < n
  {
    if n == 0 {
      assert results + [] == results;
    } else {
      MissingFills(jobs, b, results, n - 1);
      hide Fallback;
      var before := results + Missing(jobs, b, results, n - 1);
      if !HasPosition(results, n - 1) {
        var r := Fallback(jobs, b, n - 1);
        assert r.position == n - 1 by { FallbackPosition(jobs, b, n - 1); }
        assert results + Missing(jobs, b, results, n) == before + [r];
        hide HasPosition;
        forall i ensures HasPosition(before + [r], i) <==> HasPosition(results, i) || 0 <= i < n {
          HasPositionAppend(before, r, i);
        }
        AppendPositioned(before, r, |jobs|);
      }
    }
  }

  lemma {:induction false} FallbackPosition(jobs: seq<Job>, b: Backing, i: nat)
    requires i < |jobs|
    ensures Fallback(jobs, b, i).position == i && !Fallback(jobs, b, i).ok
  {
  }

  lemma {:induction false} AppendPositioned(results: seq<Result>, r: Result, n: nat)
    requires Positioned(results, n) && r.position < n && !HasPosition(results, r.position)
    ensures Positioned(results + [r], n)
  {
  }

  lemma {:induction false} FoundAtPosition(results: seq<Result>, n: nat, r: Result)
    requires Positioned(results, n) && r in results
    ensures FindPosition(results, r.position) == Some(r)
  {
    var j :| 0 <= j < |results| && results[j] == r;
    assert HasPosition(results, r.position);
    var found := FindPosition(results, r.position).value;
    var k :| 0 <= k < |results| && results[k] == found;
  }

  lemma {:induction false} MissingHasFallback(jobs: seq<Job>, b: Backing, results: seq<Result>, n: nat, i: nat)
    requires i < n <= |jobs| && !HasPosition(results, i)
    ensures Fallback(jobs, b, i) in Missing(jobs, b, results, n)
  {
    if i < n - 1 {
      MissingHasFallback(jobs, b, results, n - 1, i);
    }
  }

  /** The sorted results carry every position exactly once, each with the answer that memory or
      model gave for it, or else the verified old translation, or else the source. */
  lemma {:induction false} EveryPositionAnsweredOnce(p: Policy, jobs: seq<Job>, b: Backing, results: seq<Result>,
        i: nat)
    requires Positioned(results, |jobs|) && i < |jobs|
    ensures |Collected(p, jobs, b, results)| == |jobs|
    ensures Collected(p, jobs, b, results)[i] == Answer(p, jobs, b, results, i)
    ensures Answer(p, jobs, b, results, i).position == i
  {
    var n := |jobs|;
    var all := results + Missing(jobs, b, results, n);
    MissingFills(jobs, b, results, n);
    var repaired := RepairedAll(p, jobs, b, all);
    RepairKeepsPositions(p, jobs, b, all);
    var sorted := SortedByPosition(repaired);
    SortIncreases(repaired, n);
    hide Missing, Repaired, Increasing, SortedByPosition, RepairedAll;
    forall j | 0 <= j < n ensures HasPosition(sorted, j) {
      SamePositions(repaired, sorted, j);
    }
    SortedIsComplete(sorted, n, i);
    SortedIsComplete(sorted, n, n - 1);
    if |sorted| > n {
      assert sorted[n] in repaired;
      PositionsAtLeast(sorted, 0, n);
    }
    var found := FindPosition(results, i);
    var expected := if found.Some? then found.value else Fallback(jobs, b, i);
    if found.None? {
      MissingHasFallback(jobs, b, results, n, i);
      FallbackPosition(jobs, b, i);
    }
    assert expected in all && expected.position == i;
    var k :| 0 <= k < |all| && all[k] == expected;
    assert repaired[k] == Repaired(p, jobs, b, expected);
    assert repaired[k] in repaired && sorted[i] in repaired;
    FoundAtPosition(repaired, n, repaired[k]);
    FoundAtPosition(repaired, n, sorted[i]);
  }

  lemma {:induction false} SamePositions(a: seq<Result>, b: seq<Result>, i: nat)
    requires HasPosition(a, i) && forall x :: x in a ==> x in b
    ensures HasPosition(b, i)
  {
    var j :| 0 <= j < |a| && a[j].position == i;
    assert a[j] in b;
  }

  lemma {:induction false} RepairKeepsPositions(p: Policy, jobs: seq<Job>, b: Backing, all: seq<Result>)
    requires Positioned(all, |jobs|) && forall i :: 0 <= i < |jobs| ==> HasPosition(all, i)
    ensures Positioned(RepairedAll(p, jobs, b, all), |jobs|)
    ensures forall i :: 0 <= i < |jobs| ==> HasPosition(RepairedAll(p, jobs, b, all), i)
  {
    hide Repaired;
    var repaired := RepairedAll(p, jobs, b, all);
    assert forall j :: 0 <= j < |all| ==> repaired[j].position == all[j].position;
    forall i | 0 <= i < |jobs| ensures HasPosition(repaired, i) {
      assert HasPosition(all, i);
      var j :| 0 <= j < |all| && all[j].position == i;
      assert repaired[j].position == i;
    }
  }

  /** The order in which tasks complete does not matter. */
  lemma {:induction false} ScheduleIsIrrelevant(p: Policy, jobs: seq<Job>, b: Backing, cached: seq<Result>,
        completed: seq<Result>, other: seq<Result>)
    requires Positioned(cached + completed, |jobs|) && Positioned(cached + other, |jobs|)
    requires forall r :: r in completed <==> r in other
    ensures Collected(p, jobs, b, cached + completed) == Collected(p, jobs, b, cached + other)
  {
    hide Collected, Answer;
    var x, y := Collected(p, jobs, b, cached + completed), Collected(p, jobs, b, cached + other);
    if jobs == [] {
      NothingCollected(p, jobs, b, cached + completed);
      NothingCollected(p, jobs, b, cached + other);
    } else {
      EveryPositionAnsweredOnce(p, jobs, b, cached + completed, 0);
      EveryPositionAnsweredOnce(p, jobs, b, cached + other, 0);
      forall i | 0 <= i < |jobs| ensures x[i] == y[i] {
        EveryPositionAnsweredOnce(p, jobs, b, cached + completed, i);
        EveryPositionAnsweredOnce(p, jobs, b, cached + other, i);
        SameAnswer(p, jobs, b, cached + completed, cached + other, i);
      }
    }
  }

  lemma {:induction false} NothingCollected(p: Policy, jobs: seq<Job>, b: Backing, results: seq<Result>)
    requires jobs == [] && Positioned(results, 0)
    ensures Collected(p, jobs, b, results) == []
  {
    assert |results| > 0 ==> results[0].position < 0;
    assert results + [] == [];
  }

  lemma {:induction false} SameAnswer(p: Policy, jobs: seq<Job>, b: Backing, x: seq<Result>, y: seq<Result>, i: nat)
    requires i < |jobs| && Positioned(x, |jobs|) && Positioned(y, |jobs|)
    requires forall r :: r in x <==> r in y
    ensures Answer(p, jobs, b, x, i) == Answer(p, jobs, b, y, i)
  {
    hide Repaired, Positioned;
    var a, c := FindPosition(x, i), FindPosition(y, i);
    if a.Some? { FoundAtPosition(y, |jobs|, a.value); }
    if c.Some? { FoundAtPosition(x, |jobs|, c.value); }
  }

  /** The keys whose result did not succeed. */
  function FailedKeys(p: Policy, jobs: seq<Job>, b: Backing, results: seq<Result>): set<Text> {
    set i | 0 <= i < |jobs| && !Answer(p, jobs, b, results, i).ok :: jobs[i].key
  }

  /** Collects the results of memory and model in completion order, adds fallbacks, repairs, sorts. */
  method CollectResults(p: Policy, jobs: seq<Job>, b: Backing, cached: seq<Result>, completed: seq<Result>)
      returns (sorted: seq<Result>)
    ensures sorted == Collected(p, jobs, b, cached + completed)
  {
    hide Repaired;
    var results := cached;
    for i := 0 to |completed|
      invariant results == cached + completed[..i]
    {
      results := results + [completed[i]];
    }
    assert completed[..|completed|] == completed;
    hide HasPosition;
    var seen := set r | r in results :: r.position;
    SeenPositions(results);
    ghost var answered := results;
    for position := 0 to |jobs|
      invariant results == answered + Missing(jobs, b, answered, position)
    {
      if position !in seen {
        var key := jobs[position].key;
        results := results + [Result(position, if key in b.source then b.source[key] else jobs[position].text, false)];
      }
    }
    var repaired := [];
    for i := 0 to |results|
      invariant |repaired| == i && forall j :: 0 <= j < i ==> repaired[j] == Repaired(p, jobs, b, results[j])
    {
      repaired := repaired + [Repaired(p, jobs, b, results[i])];
    }
    assert repaired == RepairedAll(p, jobs, b, results);
    sorted := SortedByPosition(repaired);
  }

  /** The tail of the translation step: the translations in job order, and the keys that failed. */
  method AssembleResults(p: Policy, jobs: seq<Job>, b: Backing, cached: seq<Result>, completed: seq<Result>)
      returns (translations: seq<Text>, failed: set<Text>)
    requires Positioned(cached + completed, |jobs|)
    ensures |translations| == |jobs|
    ensures forall i :: 0 <= i < |jobs| ==> translations[i] == Answer(p, jobs, b, cached + completed, i).value
    ensures failed == FailedKeys(p, jobs, b, cached + completed)
  {
    hide Answer, Collected, Positioned;
    var sorted := CollectResults(p, jobs, b, cached, completed);
    ghost var answered := cached + completed;
    if |jobs| > 0 {
      EveryPositionAnsweredOnce(p, jobs, b, answered, 0);
    } else {
      NothingCollected(p, jobs, b, answered);
    }
    translations, failed := [], {};
    for i := 0 to |sorted|
      invariant |translations| == i
      invariant forall j :: 0 <= j < i ==> translations[j] == Answer(p, jobs, b, answered, j).value
      invariant failed == set j | 0 <= j < i && !Answer(p, jobs, b, answered, j).ok :: jobs[j].key
    {
      EveryPositionAnsweredOnce(p, jobs, b, answered, i);
      translations := translations + [sorted[i].value];
      if !sorted[i].ok {
        failed := failed + {jobs[sorted[i].position].key};
      }
    }
  }

  lemma {:induction false} SeenPositions(results: seq<Result>)
    ensures forall i :: i in (set r | r in results :: r.position) <==> HasPosition(results, i)
  {
    forall i ensures i in (set r | r in results :: r.position) <==> HasPosition(results, i) {
      if i in (set r | r in results :: r.position) {
        var r :| r in results && r.position == i;
        var j :| 0 <= j < |results| && results[j] == r;
      }
      if HasPosition(results, i) {
        var j :| 0 <= j < |results| && results[j].position == i;
        assert results[j] in results;
      }
    }
  }

  // ------------------------------------------------------------- answers, told by inputs

  /** The old translation of a job's key, if its source and its value are the ones the ledger knows. */
  ghost predicate Vouched(p: Policy, b: Backing, key: Text) {
    && key in b.source && key in b.existing && key in b.ledger
    && NonBlank(b.existing[key]) && Normalize(b.existing[key]) != Normalize(b.source[key])
    && b.ledger[key].sourceHash == Some(p.hash(Normalize(b.source[key])))
    && b.ledger[key].targetHash == Some(p.hash(Normalize(b.existing[key])))
  }

  lemma {:induction false} VouchedIsVerified(p: Policy, b: Backing, key: Text)
    ensures VerifiedExisting(p, key, b.source, b.existing, b.ledger)
            == if Vouched(p, b, key) then Some(b.existing[key]) else None
  {
    hide Normalize, NonBlank;
  }

  /** The answer of a job: a good result as it is, and in place of a failed or missing one the old
      translation that the ledger vouches for, or else what failed, or else the source. */
  lemma {:induction false} AnswerIsExact(p: Policy, jobs: seq<Job>, b: Backing, results: seq<Result>, i: nat)
    requires Positioned(results, |jobs|) && i < |jobs|
    ensures var a, key := Answer(p, jobs, b, results, i), jobs[i].key;
            && (forall r :: r in results && r.position == i ==>
                  a.ok == r.ok && a.value == if !r.ok && Vouched(p, b, key) then b.existing[key] else r.value)
            && ((forall r :: r in results ==> r.position != i) ==>
                  !a.ok && a.value == if Vouched(p, b, key) then b.existing[key]
                                      else if key in b.source then b.source[key] else jobs[i].text)
  {
    hide VerifiedExisting, Vouched, Positioned;
    VouchedIsVerified(p, b, jobs[i].key);
    forall r | r in results && r.position == i ensures FindPosition(results, i) == Some(r) {
      FoundAtPosition(results, |jobs|, r);
    }
  }

  /** A key has failed exactly when one of its jobs has no good result. */
  lemma {:induction false} FailedKeysExact(p: Policy, jobs: seq<Job>, b: Backing, results: seq<Result>, key: Text)
    requires Positioned(results, |jobs|)
    ensures key in FailedKeys(p, jobs, b, results)
            <==> exists i :: 0 <= i < |jobs| && jobs[i].key == key
                             && forall r :: r in results && r.position == i ==> !r.ok
  {
    hide Answer, Vouched, Positioned;
    forall i | 0 <= i < |jobs|
      ensures Answer(p, jobs, b, results, i).ok <==> exists r :: r in results && r.position == i && r.ok
    {
      AnswerIsExact(p, jobs, b, results, i);
      hide Answer;
    }
  }

  /** A memory whose conflicts are its ambiguous keys answers a job exactly when one target alone is
      approved for its text in this context, other than the text itself, which is not accepted as is. */
  lemma {:induction false} ReuseIsExact(p: Policy, recall: Recall, job: Job, value: Text)
    requires recall.store.Some? && AllSettled(recall.store.value)
    ensures var given := recall.provenance(job.text);
            Reused(p, recall, job) == Some(value)
            <==> && Approved(recall.store.value, EntryKey(given)) == {value}
                 && !OtherContext(recall.store.value, EntryKey(given), given.fingerprint)
                 && Normalize(value) != Normalize(job.text)
                 && !(job.text != [] && job.key in p.accepted && p.accepted[job.key] == job.text)
  {
    hide Normalize, LookupKey, EntryKey, Approved, OtherContext, AllSettled;
    var given := recall.provenance(job.text);
    LookupIsAgreement(recall.store.value, EntryKey(given), given.fingerprint, value);
  }

  lemma {:induction false} NoMemoryNoReuse(p: Policy, recall: Recall, job: Job)
    requires recall.store.None?
    ensures Reused(p, recall, job) == None
  {
  }
}
