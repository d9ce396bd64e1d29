/** Which keys of one target file a run translates, and what the ledger does to that choice. */
module Selection {
  import opened Texts
  import opened PropertiesFile
  import opened Entries
  import opened Ledgers
  import opened Normalizing

  // ------------------------------------------------------------------- ignored keys

  /** An ignored key that the source has; the empty key is never treated as ignored here. */
  predicate Forced(p: Policy, source: Values, key: Text) {
    key != [] && p.ignored(key) && key in source
  }

  function ForcedValues(p: Policy, source: Values): Values {
    map k | k in source && Forced(p, source, k) :: source[k]
  }

  function IgnoredApplied(p: Policy, source: Values, lines: seq<Item>): seq<Item> {
    OverrideAll(lines, ForcedValues(p, source))
  }

  predicate IsUpdated(p: Policy, source: Values, item: Item) {
    item.Entry? && Forced(p, source, item.key) && item.value != source[item.key]
  }

  function IgnoredUpdates(p: Policy, source: Values, lines: seq<Item>): set<Text> {
    set item | item in lines && IsUpdated(p, source, item) :: item.key
  }

  /** `apply_ignored_source_values`: the lines and the dictionary are updated together and stay in step. */
  method ApplyIgnoredSourceValues(p: Policy, source: Values, lines: seq<Item>, target: Values)
      returns (lines': seq<Item>, target': Values, updated: set<Text>)
    requires target == Translations(lines)
    ensures lines' == IgnoredApplied(p, source, lines)
    ensures target' == Translations(lines')
    ensures updated == IgnoredUpdates(p, source, lines)
  {
    hide Translations, HasKey, IgnoredUpdates;
    ghost var forced := ForcedValues(p, source);
    lines', target', updated := lines, target, {};
    NoEntries(p, source);
    for i := 0 to |lines|
      invariant |lines'| == |lines|
      invariant forall j :: 0 <= j < i ==> lines'[j] == Override(lines[j], forced)
      invariant forall j :: i <= j < |lines| ==> lines'[j] == lines[j]
      invariant target'.Keys == target.Keys
      invariant forall k :: k in target ==>
                  target'[k] == if k in forced && HasKey(lines[..i], k) then source[k] else target[k]
      invariant updated == IgnoredUpdates(p, source, lines[..i])
    {
      var item := lines[i];
      HasKeyGrows(lines, i);
      UpdatesGrow(p, source, lines, i);
      if item.Entry? && item.key != [] && p.ignored(item.key) && item.key in source {
        TranslationOf(lines, i);
        if item.value != source[item.key] {
          updated := updated + {item.key};
        }
        lines' := lines'[i := item.(value := source[item.key])];
        target' := target'[item.key := source[item.key]];
      }
    }
    assert lines[..|lines|] == lines;
    assert lines' == IgnoredApplied(p, source, lines);
    DictionaryInStep(lines, forced, target');
  }

  lemma {:induction false} DictionaryInStep(lines: seq<Item>, values: Values, target': Values)
    requires target'.Keys == Translations(lines).Keys
    requires forall k :: k in target' ==>
               target'[k] == if k in values && HasKey(lines, k) then values[k] else Translations(lines)[k]
    ensures target' == Translations(OverrideAll(lines, values))
  {
    hide Translations, OverrideAll, HasKey;
    forall k ensures k in target' <==> k in Translations(OverrideAll(lines, values))
      ensures k in target' ==> target'[k] == Translations(OverrideAll(lines, values))[k]
    {
      TranslationsKeys(lines, k);
      OverrideAllTranslations(lines, values, k);
    }
  }

  lemma {:induction false} NoEntries(p: Policy, source: Values)
    ensures IgnoredUpdates(p, source, []) == {} && forall k :: !HasKey([], k)
  {
  }

  lemma {:induction false} UpdatesGrow(p: Policy, source: Values, lines: seq<Item>, i: nat)
    requires i < |lines|
    ensures IgnoredUpdates(p, source, lines[..i + 1])
            == IgnoredUpdates(p, source, lines[..i]) + if IsUpdated(p, source, lines[i]) then {lines[i].key} else {}
  {
    hide Forced;
    assert lines[..i + 1] == lines[..i] + [lines[i]];
  }

  lemma {:induction false} HasKeyGrows(lines: seq<Item>, i: nat)
    requires i < |lines|
    ensures lines[..i + 1] == lines[..i] + [lines[i]]
    ensures forall k :: HasKey(lines[..i + 1], k) <==> HasKey(lines[..i], k) || (lines[i].Entry? && lines[i].key == k)
  {
    forall k ensures HasKey(lines[..i + 1], k) <==> HasKey(lines[..i], k) || (lines[i].Entry? && lines[i].key == k) {
      assert lines[..i + 1][i] == lines[i];
      assert forall j :: 0 <= j < i ==> lines[..i + 1][j] == lines[..i][j];
    }
  }

  // ---------------------------------------------------------------------- selection

  /** A text to translate, the line its translation belongs to, and its key. */
  datatype Job = Job(text: Text, index: nat, key: Text)

  datatype Context = Context(p: Policy, source: Values, newly: set<Text>, ledger: Ledger, accepted: set<Text>)

  /** The reasons for which an existing entry is translated. */
  predicate Needs(c: Context, key: Text, target: Text)
    requires key in c.source
  {
    var source, entry := c.source[key], EntryOf(c.ledger, key);
    || key in c.newly
    || (NonBlank(source) && !NonBlank(target))
    || (Same(source, target) && c.p.retranslateIdentical)
    || (entry.sourceHash.Some? && entry.sourceHash.value != c.p.HashOf(source))
    || (entry.targetHash.Some? && c.p.HashOf(target) == c.p.HashOf(source)
       && entry.targetHash.value != c.p.HashOf(source))
    || entry.failed
  }

  predicate Picks(c: Context, item: Item) {
    && item.Entry? && !c.p.ignored(item.key) && item.key !in c.accepted && item.key in c.source
    && Needs(c, item.key, item.value)
  }

  function ExistingJobs(c: Context, lines: seq<Item>, n: nat): seq<Job>
    requires n <= |lines|
  {
    if n == 0 then []
    else
      var before, item := ExistingJobs(c, lines, n - 1), lines[n - 1];
      if Picks(c, item) then before + [Job(c.source[item.key], n - 1, item.key)] else before
  }

  /** The source keys in their sorted order. */
  ghost predicate Orders(order: seq<Text>, source: Values) {
    && (forall i, j :: 0 <= i < j < |order| ==> order[i] != order[j])
    && (forall k :: k in order <==> k in source)
  }

  predicate IsNew(c: Context, lines: seq<Item>, key: Text) {
    !HasKey(lines, key) && !c.p.ignored(key)
  }

  function NewJobs(c: Context, lines: seq<Item>, order: seq<Text>, n: nat): seq<Job>
    requires n <= |order| && forall k :: k in order ==> k in c.source
  {
    if n == 0 then []
    else
      var before, key := NewJobs(c, lines, order, n - 1), order[n - 1];
      if IsNew(c, lines, key) then before + [Job(c.source[key], |lines| + |before|, key)] else before
  }

  function Selected(c: Context, lines: seq<Item>, order: seq<Text>): seq<Job>
    requires forall k :: k in order ==> k in c.source
  {
    ExistingJobs(c, lines, |lines|) + NewJobs(c, lines, order, |order|)
  }

  /** `extract_texts_to_translate`, the three parallel lists kept as one. */
  method ExtractTextsToTranslate(c: Context, lines: seq<Item>, order: seq<Text>) returns (jobs: seq<Job>)
    requires Orders(order, c.source)
    ensures jobs == Selected(c, lines, order)
  {
    hide HasKey, Normalize, NonBlank;
    jobs := [];
    var existing := {};
    NoEntry();
    for i := 0 to |lines|
      invariant jobs == ExistingJobs(c, lines, i)
      invariant forall k :: k in existing <==> HasKey(lines[..i], k)
    {
      var item := lines[i];
      HasKeyGrows(lines, i);
      if item.Entry? {
        existing := existing + {item.key};
        if !c.p.ignored(item.key) && item.key !in c.accepted && item.key in c.source {
          var source, entry := c.source[item.key], EntryOf(c.ledger, item.key);
          var currentSource, currentTarget := c.p.HashOf(source), c.p.HashOf(item.value);
          var emptyTarget := NonBlank(source) && !NonBlank(item.value);
          var legacy := Same(source, item.value) && c.p.retranslateIdentical;
          var changedSource := entry.sourceHash.Some? && entry.sourceHash.value != currentSource;
          var regressed := entry.targetHash.Some? && currentTarget == currentSource
              && entry.targetHash.value != currentSource;
          if item.key in c.newly || emptyTarget || legacy || changedSource || regressed || entry.failed {
            jobs := jobs + [Job(source, i, item.key)];
          }
        }
      }
    }
    assert lines[..|lines|] == lines;
    ghost var found := jobs;
    var next := |lines|;
    for i := 0 to |order|
      invariant jobs == found + NewJobs(c, lines, order, i)
      invariant next == |lines| + |NewJobs(c, lines, order, i)|
    {
      var key := order[i];
      if key !in existing && !c.p.ignored(key) {
        jobs := jobs + [Job(c.source[key], next, key)];
        next := next + 1;
      }
    }
  }

  lemma {:induction false} NoEntry()
    ensures forall k :: !HasKey([], k)
  {
  }

  /** The entry of line `i` is translated. */
  predicate PicksLine(c: Context, lines: seq<Item>, i: nat) {
    i < |lines| && lines[i].Entry? && lines[i].key in c.source && Picks(c, lines[i])
  }

  lemma {:induction false} PickedEntry(c: Context, item: Item)
    requires Picks(c, item)
    ensures item.Entry? && item.key in c.source && !c.p.ignored(item.key)
  {
  }

  ghost predicate KeyPicked(c: Context, lines: seq<Item>, key: Text) {
    exists i: nat :: PicksLine(c, lines, i) && lines[i].key == key
  }

  ghost predicate HasJobFor(jobs: seq<Job>, i: nat) {
    exists j :: 0 <= j < |jobs| && jobs[j].index == i
  }

  /** In line order, one job for each of the first `n` lines that needs translation and for no other. */
  ghost predicate JobsForLines(c: Context, lines: seq<Item>, n: nat, jobs: seq<Job>) {
    && (forall j :: 0 <= j < |jobs| ==>
          && jobs[j].index < n && PicksLine(c, lines, jobs[j].index)
          && jobs[j].key == lines[jobs[j].index].key && jobs[j].text == c.source[jobs[j].key])
    && (forall j, k :: 0 <= j < k < |jobs| ==> jobs[j].index < jobs[k].index)
    && (forall i: nat :: i < n && PicksLine(c, lines, i) ==> HasJobFor(jobs, i))
  }

  lemma {:induction false} ExistingJobsExact(c: Context, lines: seq<Item>, n: nat)
    requires n <= |lines|
    ensures JobsForLines(c, lines, n, ExistingJobs(c, lines, n))
  {
    hide Picks, JobsForLines;
    if n > 0 {
      ExistingJobsExact(c, lines, n - 1);
      var before := ExistingJobs(c, lines, n - 1);
      if Picks(c, lines[n - 1]) {
        OneMoreLineJob(c, lines, n, before);
      } else {
        NoLineJob(c, lines, n, before);
      }
    } else {
      NoLineJobs(c, lines);
    }
  }

  lemma {:induction false} NoLineJobs(c: Context, lines: seq<Item>)
    ensures JobsForLines(c, lines, 0, [])
  {
  }

  lemma {:induction false} NoLineJob(c: Context, lines: seq<Item>, n: nat, before: seq<Job>)
    requires 0 < n <= |lines| && !Picks(c, lines[n - 1]) && JobsForLines(c, lines, n - 1, before)
    ensures JobsForLines(c, lines, n, before)
  {
    hide Picks;
  }

  lemma {:induction false} OneMoreLineJob(c: Context, lines: seq<Item>, n: nat, before: seq<Job>)
    requires 0 < n <= |lines| && Picks(c, lines[n - 1]) && JobsForLines(c, lines, n - 1, before)
    ensures lines[n - 1].Entry? && lines[n - 1].key in c.source
    ensures JobsForLines(c, lines, n, before + [Job(c.source[lines[n - 1].key], n - 1, lines[n - 1].key)])
  {
    PickedEntry(c, lines[n - 1]);
    assert PicksLine(c, lines, n - 1);
    hide Picks, PicksLine;
    var job := Job(c.source[lines[n - 1].key], n - 1, lines[n - 1].key);
    forall i | 0 <= i < n && PicksLine(c, lines, i) ensures HasJobFor(before + [job], i) {
      if i < n - 1 { JobStays(before, job, i); } else { assert (before + [job])[|before|] == job; }
    }
    assert forall j :: 0 <= j < |before| ==> (before + [job])[j] == before[j];
  }

  lemma {:induction false} JobStays(before: seq<Job>, job: Job, i: nat)
    requires HasJobFor(before, i)
    ensures HasJobFor(before + [job], i)
  {
    var j :| 0 <= j < |before| && before[j].index == i;
    assert (before + [job])[j] == before[j];
  }

  ghost predicate Among(order: seq<Text>, n: nat, key: Text) {
    exists i :: 0 <= i < n && i < |order| && order[i] == key
  }

  lemma {:induction false} AmongStep(order: seq<Text>, n: nat, key: Text, source: Values)
    requires n < |order| && Among(order, n, key) && Orders(order, source)
    ensures Among(order, n + 1, key) && key != order[n]
  {
  }

  /** In key order, one job for each of the first `n` keys that the file lacks and that is not
      ignored, each for the next line after the last. */
  ghost predicate JobsForNewKeys(c: Context, lines: seq<Item>, order: seq<Text>, n: nat, jobs: seq<Job>) {
    && (forall j :: 0 <= j < |jobs| ==>
          && jobs[j].index == |lines| + j && Among(order, n, jobs[j].key) && IsNew(c, lines, jobs[j].key)
          && jobs[j].key in c.source && jobs[j].text == c.source[jobs[j].key])
    && (forall j, k :: 0 <= j < k < |jobs| ==> jobs[j].key != jobs[k].key)
    && (forall i :: 0 <= i < n && i < |order| && IsNew(c, lines, order[i]) ==>
          exists j :: 0 <= j < |jobs| && jobs[j].key == order[i])
  }

  lemma {:induction false} NewJobsExact(c: Context, lines: seq<Item>, order: seq<Text>, n: nat)
    requires n <= |order| && Orders(order, c.source)
    ensures JobsForNewKeys(c, lines, order, n, NewJobs(c, lines, order, n))
  {
    hide IsNew, JobsForNewKeys;
    if n > 0 {
      NewJobsExact(c, lines, order, n - 1);
      var before, key := NewJobs(c, lines, order, n - 1), order[n - 1];
      hide Orders;
      if IsNew(c, lines, key) {
        OneMoreNewJob(c, lines, order, n, before);
      } else {
        NoNewJob(c, lines, order, n, before);
      }
    } else {
      NoNewJobs(c, lines, order);
    }
  }

  lemma {:induction false} NoNewJobs(c: Context, lines: seq<Item>, order: seq<Text>)
    ensures JobsForNewKeys(c, lines, order, 0, [])
  {
  }

  lemma {:induction false} NoNewJob(c: Context, lines: seq<Item>, order: seq<Text>, n: nat, before: seq<Job>)
    requires 0 < n <= |order| && Orders(order, c.source) && !IsNew(c, lines, order[n - 1])
    requires JobsForNewKeys(c, lines, order, n - 1, before)
    ensures JobsForNewKeys(c, lines, order, n, before)
  {
    hide IsNew;
    forall j | 0 <= j < |before| ensures Among(order, n, before[j].key) {
      AmongStep(order, n - 1, before[j].key, c.source);
    }
  }

  lemma {:induction false} OneMoreNewJob(c: Context, lines: seq<Item>, order: seq<Text>, n: nat, before: seq<Job>)
    requires 0 < n <= |order| && Orders(order, c.source) && IsNew(c, lines, order[n - 1])
    requires JobsForNewKeys(c, lines, order, n - 1, before)
    ensures order[n - 1] in c.source
    ensures JobsForNewKeys(c, lines, order, n, before + [Job(c.source[order[n - 1]], |lines| + |before|, order[n - 1])])
  {
    hide IsNew;
    var key := order[n - 1];
    assert key in c.source && Among(order, n, key);
    var job := Job(c.source[key], |lines| + |before|, key);
    var after := before + [job];
    assert after[|before|] == job;
    forall j | 0 <= j < |before|
      ensures after[j] == before[j] && Among(order, n, before[j].key) && before[j].key != key
    {
      AmongStep(order, n - 1, before[j].key, c.source);
    }
    hide Among, Orders;
    forall i | 0 <= i < n && i < |order| && IsNew(c, lines, order[i])
      ensures exists j :: 0 <= j < |after| && after[j].key == order[i]
    {
      if i < n - 1 {
        var j :| 0 <= j < |before| && before[j].key == order[i];
        assert after[j].key == order[i];
      }
    }
  }

  function KeysOf(jobs: seq<Job>): set<Text> {
    set job | job in jobs :: job.key
  }

  /** A key is selected exactly when a line of it needs translation or the file lacks it. */
  lemma {:induction false} SelectedKeysExact(c: Context, lines: seq<Item>, order: seq<Text>, key: Text)
    requires Orders(order, c.source)
    ensures key in KeysOf(Selected(c, lines, order))
            <==> KeyPicked(c, lines, key) || (key in c.source && IsNew(c, lines, key))
  {
    ExistingJobsExact(c, lines, |lines|);
    NewJobsExact(c, lines, order, |order|);
    var found, added := ExistingJobs(c, lines, |lines|), NewJobs(c, lines, order, |order|);
    hide ExistingJobs, NewJobs;
    KeysOfBoth(found, added);
    hide KeysOf;
    KeysOfLines(c, lines, found, key);
    KeysOfNew(c, lines, order, added, key);
  }

  lemma {:induction false} KeysOfBoth(a: seq<Job>, b: seq<Job>)
    ensures KeysOf(a + b) == KeysOf(a) + KeysOf(b)
  {
    assert forall job :: job in a + b <==> job in a || job in b;
  }

  lemma {:induction false} KeysOfLines(c: Context, lines: seq<Item>, jobs: seq<Job>, key: Text)
    requires JobsForLines(c, lines, |lines|, jobs)
    ensures key in KeysOf(jobs) <==> KeyPicked(c, lines, key)
  {
    hide Picks;
    if key in KeysOf(jobs) {
      var j :| 0 <= j < |jobs| && jobs[j].key == key;
      assert PicksLine(c, lines, jobs[j].index);
    }
    if KeyPicked(c, lines, key) {
      var i: nat :| PicksLine(c, lines, i) && lines[i].key == key;
      assert HasJobFor(jobs, i);
      var j :| 0 <= j < |jobs| && jobs[j].index == i;
      assert jobs[j] in jobs;
    }
  }

  lemma {:induction false} KeysOfNew(c: Context, lines: seq<Item>, order: seq<Text>, jobs: seq<Job>, key: Text)
    requires Orders(order, c.source) && JobsForNewKeys(c, lines, order, |order|, jobs)
    ensures key in KeysOf(jobs) <==> key in c.source && IsNew(c, lines, key)
  {
    hide IsNew, Among;
    if key in KeysOf(jobs) {
      var j :| 0 <= j < |jobs| && jobs[j].key == key;
      assert IsNew(c, lines, jobs[j].key);
    }
    if key in c.source && IsNew(c, lines, key) {
      var i :| 0 <= i < |order| && order[i] == key;
      var j :| 0 <= j < |jobs| && jobs[j].key == order[i];
      assert jobs[j] in jobs;
    }
  }

  /** Selected keys are source keys that are not ignored. */
  lemma {:induction false} SelectedKeysAreTranslatable(c: Context, lines: seq<Item>, order: seq<Text>, key: Text)
    requires Orders(order, c.source) && key in KeysOf(Selected(c, lines, order))
    ensures key in c.source && !c.p.ignored(key)
  {
    hide Selected, KeysOf, Needs;
    SelectedKeysExact(c, lines, order, key);
    if KeyPicked(c, lines, key) {
      var i: nat :| PicksLine(c, lines, i) && lines[i].key == key;
      PickedEntry(c, lines[i]);
    }
  }

  // ------------------------------------------------------------------ the git filter

  function AcceptedKeys(p: Policy, source: Values, target: Values, ledger: Ledger): set<Text> {
    set k | k in source && !EntryOf(ledger, k).failed && p.Accepts(k, source[k], Get(target, k))
  }

  predicate PassesFilter(p: Policy, source: Values, ledger: Ledger, target: Values, key: Text) {
    || (key in source && key in target && Same(source[key], target[key]))
    || EntryOf(ledger, key).sourceHash.None?
    || key !in source
    || p.HashOf(source[key]) != EntryOf(ledger, key).sourceHash.value
  }

  /** `filter_git_changed_keys_by_source` */
  method FilterGitChangedKeysBySource(p: Policy, changed: set<Text>, source: Values, ledger: Ledger, target: Values)
      returns (filtered: set<Text>)
    ensures filtered == set k | k in changed && PassesFilter(p, source, ledger, target, k)
  {
    hide Normalize;
    filtered := {};
    var todo := changed;
    while todo != {}
      invariant todo <= changed
      invariant forall k :: k in filtered <==> k in changed && k !in todo && PassesFilter(p, source, ledger, target, k)
      decreases |todo|
    {
      var key :| key in todo;
      var previous := EntryOf(ledger, key).sourceHash;
      if key in source && key in target && Same(source[key], target[key]) {
        filtered := filtered + {key};
      } else if previous.None? || key !in source || p.HashOf(source[key]) != previous.value {
        filtered := filtered + {key};
      }
      assert key in filtered <==> PassesFilter(p, source, ledger, target, key);
      todo := todo - {key};
    }
  }
}
