/** Writing translations to the lines they belong to, and what stays untouched. */
module Integration {
  import opened Texts
  import opened PropertiesFile
  import opened Entries
  import opened Ledgers
  import opened Selection

  function Written(p: Policy, source: Values, lines: seq<Item>, job: Job, translation: Text): seq<Item> {
    var value := p.escape(Get(source, job.key), translation);
    if job.index >= |lines| then lines + [NewEntry(job.key, value)]
    else if lines[job.index].Entry? then lines[job.index := lines[job.index].(value := value)]
    else lines
  }

  function Integrated(p: Policy, source: Values, lines: seq<Item>, jobs: seq<Job>, translations: seq<Text>,
        n: nat): seq<Item>
    requires n <= |jobs| == |translations|
  {
    if n == 0 then lines
    else Written(p, source, Integrated(p, source, lines, jobs, translations, n - 1), jobs[n - 1], translations[n - 1])
  }

  /** `integrate_translations` */
  method IntegrateTranslations(p: Policy, source: Values, lines: seq<Item>, jobs: seq<Job>, translations: seq<Text>)
      returns (draft: seq<Item>)
    requires |jobs| == |translations|
    ensures draft == Integrated(p, source, lines, jobs, translations, |jobs|)
  {
    draft := lines;
    for n := 0 to |jobs|
      invariant draft == Integrated(p, source, lines, jobs, translations, n)
    {
      var job := jobs[n];
      var value := p.escape(Get(source, job.key), translations[n]);
      if job.index < |draft| {
        if draft[job.index].Entry? {
          draft := draft[job.index := draft[job.index].(value := value)];
        }
      } else {
        draft := draft + [NewEntry(job.key, value)];
      }
    }
  }

  // ------------------------------------------------------------- each to its own line

  /** The first `existing` jobs name entries of the file by increasing line, the others the lines
      after the last one by one. */
  ghost predicate WellPlaced(lines: seq<Item>, jobs: seq<Job>, existing: nat) {
    && existing <= |jobs|
    && (forall j :: 0 <= j < existing ==> PlacedOn(lines, jobs[j]))
    && (forall j :: existing <= j < |jobs| ==> jobs[j].index == |lines| + j - existing)
    && (forall j, k :: 0 <= j < k < |jobs| ==> jobs[j].index < jobs[k].index)
  }

  predicate PlacedOn(lines: seq<Item>, job: Job) {
    job.index < |lines| && lines[job.index].Entry? && lines[job.index].key == job.key
  }

  lemma {:induction false} SelectedIsWellPlaced(c: Context, lines: seq<Item>, order: seq<Text>)
    requires Orders(order, c.source)
    ensures WellPlaced(lines, Selected(c, lines, order), |ExistingJobs(c, lines, |lines|)|)
  {
    ExistingJobsExact(c, lines, |lines|);
    NewJobsExact(c, lines, order, |order|);
    var found, added := ExistingJobs(c, lines, |lines|), NewJobs(c, lines, order, |order|);
    hide ExistingJobs, NewJobs, Picks, IsNew, Among;
    var jobs: seq<Job> := found + added;
    assert forall j :: 0 <= j < |found| ==> jobs[j] == found[j];
    assert forall j :: |found| <= j < |jobs| ==> jobs[j] == added[j - |found|];
    assert forall j :: 0 <= j < |found| ==> PicksLine(c, lines, found[j].index);
  }

  /** The item a job leaves: its own entry with the new value, or a new entry of its key. */
  function Target(p: Policy, source: Values, lines: seq<Item>, job: Job, translation: Text): Item {
    var value := p.escape(Get(source, job.key), translation);
    if PlacedOn(lines, job) then lines[job.index].(value := value) else NewEntry(job.key, value)
  }

  /** After `n` jobs: each translation stands on the line of its own key, each new key was appended
      once, and no other line changed. */
  ghost predicate EachToItsLine(p: Policy, source: Values, lines: seq<Item>, jobs: seq<Job>, translations: seq<Text>,
                                existing: nat, n: nat, after: seq<Item>)
    requires n <= |jobs| == |translations|
  {
    && |after| == |lines| + (if n > existing then n - existing else 0)
    && (forall j :: 0 <= j < n ==> jobs[j].index < |after|
                                   && after[jobs[j].index] == Target(p, source, lines, jobs[j], translations[j]))
    && (forall i :: 0 <= i < |lines| && (forall j :: 0 <= j < n ==> jobs[j].index != i) ==> after[i] == lines[i])
  }

  lemma {:induction false} IntegrationIsExact(p: Policy, source: Values, lines: seq<Item>, jobs: seq<Job>,
        translations: seq<Text>,
                                              existing: nat, n: nat)
    requires n <= |jobs| == |translations| && WellPlaced(lines, jobs, existing)
    ensures EachToItsLine(p, source, lines, jobs, translations, existing, n,
            Integrated(p, source, lines, jobs, translations, n))
  {
    if n > 0 {
      IntegrationIsExact(p, source, lines, jobs, translations, existing, n - 1);
      var before := Integrated(p, source, lines, jobs, translations, n - 1);
      StillUntouched(p, source, lines, jobs, translations, existing, n, before);
      WrittenExactly(p, source, lines, jobs, translations, existing, n, before);
    }
  }

  /** The line of the next job was not written by an earlier one. */
  lemma {:induction false} StillUntouched(p: Policy, source: Values, lines: seq<Item>, jobs: seq<Job>,
        translations: seq<Text>,
                       existing: nat, n: nat, before: seq<Item>)
    requires 0 < n <= |jobs| == |translations| && WellPlaced(lines, jobs, existing)
    requires EachToItsLine(p, source, lines, jobs, translations, existing, n - 1, before)
    ensures jobs[n - 1].index < |lines| ==> before[jobs[n - 1].index] == lines[jobs[n - 1].index]
    ensures n <= existing ==> PlacedOn(lines, jobs[n - 1])
    ensures n > existing ==> jobs[n - 1].index == |before| && !PlacedOn(lines, jobs[n - 1])
  {
    hide Target, PlacedOn;
    if n > existing { assert jobs[n - 1].index == |lines| + n - 1 - existing; }
    assert forall j :: 0 <= j < n - 1 ==> jobs[j].index < jobs[n - 1].index;
    if jobs[n - 1].index >= |lines| { NotPlaced(lines, jobs[n - 1]); }
  }

  lemma {:induction false} NotPlaced(lines: seq<Item>, job: Job)
    requires job.index >= |lines|
    ensures !PlacedOn(lines, job)
  {
  }

  lemma {:induction false} WrittenExactly(p: Policy, source: Values, lines: seq<Item>, jobs: seq<Job>,
        translations: seq<Text>,
                       existing: nat, n: nat, before: seq<Item>)
    requires 0 < n <= |jobs| == |translations| && WellPlaced(lines, jobs, existing)
    requires EachToItsLine(p, source, lines, jobs, translations, existing, n - 1, before)
    requires jobs[n - 1].index < |lines| ==> before[jobs[n - 1].index] == lines[jobs[n - 1].index]
    requires n <= existing ==> PlacedOn(lines, jobs[n - 1])
    requires n > existing ==> jobs[n - 1].index == |before| && !PlacedOn(lines, jobs[n - 1])
    ensures EachToItsLine(p, source, lines, jobs, translations, existing, n,
                          Written(p, source, before, jobs[n - 1], translations[n - 1]))
  {
    var after, job := Written(p, source, before, jobs[n - 1], translations[n - 1]), jobs[n - 1];
    assert after[job.index] == Target(p, source, lines, job, translations[n - 1]);
    assert |after| == |lines| + (if n > existing then n - existing else 0);
    assert forall i :: 0 <= i < |before| && i != job.index ==> after[i] == before[i];
    hide Written, Target;
    forall j | 0 <= j < n
      ensures jobs[j].index < |after| && after[jobs[j].index] == Target(p, source, lines, jobs[j], translations[j])
    {
      if j < n - 1 { assert jobs[j].index < job.index; }
    }
    forall i | 0 <= i < |lines| && (forall j :: 0 <= j < n ==> jobs[j].index != i) ensures after[i] == lines[i] {
      assert jobs[n - 1].index != i;
    }
  }

  // --------------------------------------------------------------------- the frame

  /** Only the value may differ, and only of an entry of `keys`. */
  predicate TouchedItem(x: Item, y: Item, keys: set<Text>) {
    x == y || (x.Entry? && y.Entry? && x.key in keys && y == x.(value := y.value))
  }

  predicate Added(x: Item, keys: set<Text>) {
    x.Entry? && x.key in keys && x == NewEntry(x.key, x.value)
  }

  /** Nothing but values of entries of `keys` changed, and only new entries of `keys` were added, at the end. */
  ghost predicate Touches(before: seq<Item>, after: seq<Item>, keys: set<Text>) {
    && |before| <= |after|
    && (forall i :: 0 <= i < |before| ==> TouchedItem(before[i], after[i], keys))
    && (forall i :: |before| <= i < |after| ==> Added(after[i], keys))
  }

  lemma {:induction false} TouchesTransitively(a: seq<Item>, b: seq<Item>, c: seq<Item>, keys: set<Text>)
    requires Touches(a, b, keys) && Touches(b, c, keys)
    ensures Touches(a, c, keys)
  {
    forall i | |a| <= i < |c| ensures Added(c[i], keys) {
      if i < |b| { assert Added(b[i], keys) && TouchedItem(b[i], c[i], keys); }
    }
  }

  lemma {:induction false} IntegrationTouchesJobs(p: Policy, source: Values, lines: seq<Item>, jobs: seq<Job>,
        translations: seq<Text>,
                                                  existing: nat)
    requires |jobs| == |translations| && WellPlaced(lines, jobs, existing)
    ensures Touches(lines, Integrated(p, source, lines, jobs, translations, |jobs|), KeysOf(jobs))
  {
    var n := |jobs|;
    IntegrationIsExact(p, source, lines, jobs, translations, existing, n);
    var after := Integrated(p, source, lines, jobs, translations, n);
    hide Integrated;
    forall i | 0 <= i < |lines| ensures TouchedItem(lines[i], after[i], KeysOf(jobs)) {
      if j :| 0 <= j < n && jobs[j].index == i {
        var index := jobs[j].index;
        assert j >= existing ==> index == |lines| + j - existing;
        assert PlacedOn(lines, jobs[j]) && jobs[j] in jobs;
      }
    }
    forall i | |lines| <= i < |after| ensures Added(after[i], KeysOf(jobs)) {
      var j := existing + (i - |lines|);
      assert jobs[j].index == i && jobs[j] in jobs;
    }
  }

  lemma {:induction false} IntegratedHasKey(p: Policy, source: Values, lines: seq<Item>, jobs: seq<Job>,
        translations: seq<Text>,
                         existing: nat, key: Text)
    requires |jobs| == |translations| && WellPlaced(lines, jobs, existing) && key in KeysOf(jobs)
    ensures HasKey(Integrated(p, source, lines, jobs, translations, |jobs|), key)
  {
    IntegrationIsExact(p, source, lines, jobs, translations, existing, |jobs|);
    var after := Integrated(p, source, lines, jobs, translations, |jobs|);
    hide Integrated, WellPlaced;
    var job :| job in jobs && job.key == key;
    var j :| 0 <= j < |jobs| && jobs[j] == job;
    assert after[job.index] == Target(p, source, lines, job, translations[j]);
    assert after[job.index].Entry? && after[job.index].key == key;
  }

  /** The `m`-th entry after the old lines is the one of the `m`-th new key. */
  lemma {:induction false} AppendedEntry(c: Context, lines: seq<Item>, order: seq<Text>, translations: seq<Text>,
        i: nat)
    requires Orders(order, c.source) && |translations| == |Selected(c, lines, order)|
    requires |lines| <= i < |Integrated(c.p, c.source, lines, Selected(c, lines, order), translations, |translations|)|
    ensures i - |lines| < |NewJobs(c, lines, order, |order|)|
    ensures var item := Integrated(c.p, c.source, lines, Selected(c, lines, order), translations, |translations|)[i];
            && item.Entry? && item.key == NewJobs(c, lines, order, |order|)[i - |lines|].key && !HasKey(lines, item.key)
  {
    var found, added, jobs := ExistingJobs(c, lines, |lines|), NewJobs(c, lines, order, |order|),
        Selected(c, lines, order);
    var after := Integrated(c.p, c.source, lines, jobs, translations, |jobs|);
    SelectedIsWellPlaced(c, lines, order);
    IntegrationIsExact(c.p, c.source, lines, jobs, translations, |found|, |jobs|);
    NewJobsExact(c, lines, order, |order|);
    var m := i - |lines|;
    assert jobs[|found| + m] == added[m];
    hide Integrated, ExistingJobs, NewJobs, Among, Picks, Selected, HasKey, PlacedOn;
    assert jobs[|found| + m].index == i;
    assert after[i] == Target(c.p, c.source, lines, added[m], translations[|found| + m]);
    NotPlaced(lines, added[m]);
    assert IsNew(c, lines, added[m].key);
  }

  predicate AppendedAs(lines: seq<Item>, added: seq<Job>, i: int, item: Item) {
    && 0 <= i - |lines| < |added| && item.Entry? && item.key == added[i - |lines|].key && !HasKey(lines, item.key)
  }

  /** New entries bring distinct keys that the file did not have. */
  lemma {:induction false} IntegrationKeepsKeysDistinct(c: Context, lines: seq<Item>, order: seq<Text>,
        translations: seq<Text>)
    requires Orders(order, c.source) && DistinctKeys(lines) && |translations| == |Selected(c, lines, order)|
    ensures DistinctKeys(Integrated(c.p, c.source, lines, Selected(c, lines, order), translations, |translations|))
  {
    var found, added, jobs := ExistingJobs(c, lines, |lines|), NewJobs(c, lines, order, |order|),
        Selected(c, lines, order);
    var after := Integrated(c.p, c.source, lines, jobs, translations, |jobs|);
    SelectedIsWellPlaced(c, lines, order);
    IntegrationTouchesJobs(c.p, c.source, lines, jobs, translations, |found|);
    NewJobsExact(c, lines, order, |order|);
    forall i | |lines| <= i < |after| ensures AppendedAs(lines, added, i, after[i]) {
      AppendedEntry(c, lines, order, translations, i);
    }
    hide Integrated, ExistingJobs, NewJobs, Selected, IsNew, Among, WellPlaced, KeysOf;
    DistinctAppended(lines, after, KeysOf(jobs), added);
  }

  lemma {:induction false} DistinctAppended(lines: seq<Item>, after: seq<Item>, keys: set<Text>, added: seq<Job>)
    requires Touches(lines, after, keys) && DistinctKeys(lines)
    requires forall j, k :: 0 <= j < k < |added| ==> added[j].key != added[k].key
    requires forall i :: |lines| <= i < |after| ==> AppendedAs(lines, added, i, after[i])
    ensures DistinctKeys(after)
  {
    hide Added, HasKey;
    forall i, j | 0 <= i < j < |after| && after[i].Entry? && after[j].Entry? ensures after[i].key != after[j].key {
      if i < |lines| {
        assert TouchedItem(lines[i], after[i], keys);
      } else {
        assert AppendedAs(lines, added, i, after[i]);
      }
      if j < |lines| {
        assert TouchedItem(lines[j], after[j], keys);
      } else {
        assert AppendedAs(lines, added, j, after[j]);
      }
      if i < |lines| <= j { KeyThere(lines, i); }
    }
  }

  lemma {:induction false} KeyThere(lines: seq<Item>, i: nat)
    requires i < |lines| && lines[i].Entry?
    ensures HasKey(lines, lines[i].key)
  {
  }
}
