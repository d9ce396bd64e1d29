/** What a run teaches the translation memory. */
module RunMemory {
  import opened Texts
  import opened PropertiesFile
  import opened Entries
  import opened Normalizing
  import opened Ledgers
  import opened Selection
  import opened Memory
  import opened FileRun

  /** A step that records a validated translation of a selected key. */
  ghost predicate Teaches(p: Policy, source: Values, valid: Values, jobs: seq<Job>, failed: set<Text>,
                          provenance: Text -> Provenance, step: Step)
  {
    exists key :: key in KeysOf(jobs) && Remembers(p, source, valid, failed, key)
                  && step == Record(provenance(source[key]), valid[key])
  }

  /** Only keys that passed are recorded, and never a blank or an unaccepted echo of the source. */
  lemma {:induction false} OnlyPassedKeysAreRemembered(p: Policy, source: Values, valid: Values, jobs: seq<Job>,
        failed: set<Text>,
                                                       provenance: Text -> Provenance, n: nat)
    requires n <= |jobs|
    ensures forall step :: step in UpdateSteps(p, source, valid, jobs, failed, provenance, n) ==>
              Teaches(p, source, valid, jobs, failed, provenance, step)
  {
    hide Remembers;
    if n > 0 {
      OnlyPassedKeysAreRemembered(p, source, valid, jobs, failed, provenance, n - 1);
      var key := jobs[n - 1].key;
      assert jobs[n - 1] in jobs;
      if Remembers(p, source, valid, failed, key) {
        RememberedKey(p, source, valid, failed, key);
        var step := Record(provenance(source[key]), valid[key]);
        assert key in KeysOf(jobs) && step == Record(provenance(source[key]), valid[key]);
        assert Teaches(p, source, valid, jobs, failed, provenance, step);
      }
    }
  }

  lemma {:induction false} RememberedKey(p: Policy, source: Values, valid: Values, failed: set<Text>, key: Text)
    requires Remembers(p, source, valid, failed, key)
    ensures key !in failed && key in source && key in valid && valid[key] != []
  {
  }

  lemma {:induction false} AcceptedStepsAreSound(p: Policy, source: Values, target: Values, ledger: Ledger,
        order: seq<Text>,
                                                 provenance: Text -> Provenance, n: nat)
    requires n <= |order| && forall k :: k in order ==> k in AcceptedKeys(p, source, target, ledger) && k in source
                                                        && k in target
    ensures forall step :: step in AcceptedSteps(source, target, order, provenance, n) ==> Sound(step)
  {
    if n > 0 {
      AcceptedStepsAreSound(p, source, target, ledger, order, provenance, n - 1);
      assert order[n - 1] in AcceptedKeys(p, source, target, ledger);
      AcceptedIsText(p, source, target, ledger, order[n - 1]);
    }
  }

  lemma {:induction false} AcceptedIsText(p: Policy, source: Values, target: Values, ledger: Ledger, key: Text)
    requires key in AcceptedKeys(p, source, target, ledger)
    ensures key in source && key in target && target[key] == source[key] != []
  {
  }

  /** A clean memory stays clean over every run of every file, however it ends. */
  lemma {:induction false} MemoryStaysClean(p: Policy, inp: Inputs, w: World, store: Store, outcome: Outcome)
    requires Sane(inp) && AcceptedInOrder(p, inp, w) && Clean(store)
    ensures Clean(StoreAtLookup(p, inp, w, store))
    ensures Clean(StoreAfter(p, inp, w, store, outcome))
  {
    var target := Translations(Prepared(p, inp));
    AcceptedAreThere(p, inp, w);
    AcceptedStepsAreSound(p, inp.source, target, inp.ledger, w.acceptedOrder, w.provenance, |w.acceptedOrder|);
    var first := AcceptedSteps(inp.source, target, w.acceptedOrder, w.provenance, |w.acceptedOrder|);
    var held := StoreAtLookup(p, inp, w, store);
    hide Clean, Run, Sound, AcceptedSteps, UpdateSteps, JobsOf, Prepared, Translations, AcceptedKeys;
    SoundRunStaysClean(store, first);
    if outcome.Published? {
      var jobs := JobsOf(p, inp);
      var steps := UpdateSteps(p, inp.source, outcome.valid, jobs, outcome.failed, w.provenance, |jobs|);
      OnlyPassedKeysAreRemembered(p, inp.source, outcome.valid, jobs, outcome.failed, w.provenance, |jobs|);
      forall step | step in steps ensures Sound(step) {
        TaughtStepIsSound(p, inp.source, outcome.valid, jobs, outcome.failed, w.provenance, step);
      }
      SoundRunStaysClean(held, steps);
    }
  }

  lemma {:induction false} TaughtStepIsSound(p: Policy, source: Values, valid: Values, jobs: seq<Job>,
        failed: set<Text>,
                          provenance: Text -> Provenance, step: Step)
    requires Teaches(p, source, valid, jobs, failed, provenance, step)
    ensures Sound(step)
  {
    var key :| key in KeysOf(jobs) && Remembers(p, source, valid, failed, key)
               && step == Record(provenance(source[key]), valid[key]);
    RememberedKey(p, source, valid, failed, key);
  }

  lemma {:induction false} SoundRunStaysClean(store: Store, steps: seq<Step>)
    requires Clean(store) && forall step :: step in steps ==> Sound(step)
    ensures Clean(Run(store, steps))
  {
    hide Clean, Sound, Run;
    RunRefinesSets(store, steps, [], []);
  }

  // ------------------------------------------------------------- what exactly is learnt

  /** The key passed with a value that is not blank and repeats its source only as accepted. */
  predicate Learnable(p: Policy, source: Values, valid: Values, failed: set<Text>, key: Text) {
    && key !in failed && key in source && key in valid && NonBlank(valid[key])
    && (Normalize(valid[key]) == Normalize(source[key]) ==>
          valid[key] == source[key] && key in p.accepted && p.accepted[key] == source[key])
  }

  lemma {:induction false} LearnableIsRemembered(p: Policy, source: Values, valid: Values, failed: set<Text>, key: Text)
    ensures Learnable(p, source, valid, failed, key) <==> Remembers(p, source, valid, failed, key)
  {
    NothingIsThere();
    hide Normalize, NonBlank;
  }

  lemma {:induction false} NothingIsThere()
    ensures !NonBlank([])
  {
  }

  /** A run records the values of the learnable keys among its jobs, all of them and no others. */
  lemma {:induction false} UpdateStepsExactly(p: Policy, source: Values, valid: Values, jobs: seq<Job>,
        failed: set<Text>, provenance: Text -> Provenance, n: nat, step: Step)
    requires n <= |jobs|
    ensures step in UpdateSteps(p, source, valid, jobs, failed, provenance, n)
            <==> exists j :: 0 <= j < n && Learnable(p, source, valid, failed, jobs[j].key)
                             && step == Record(provenance(source[jobs[j].key]), valid[jobs[j].key])
  {
    hide Learnable, Remembers;
    if n > 0 {
      UpdateStepsExactly(p, source, valid, jobs, failed, provenance, n - 1, step);
      LearnableIsRemembered(p, source, valid, failed, jobs[n - 1].key);
      LearnableKey(p, source, valid, failed);
    }
  }

  lemma {:induction false} LearnableKey(p: Policy, source: Values, valid: Values, failed: set<Text>)
    ensures forall key :: Learnable(p, source, valid, failed, key) ==> key in source && key in valid
  {
    hide Normalize, NonBlank;
  }

  lemma {:induction false} AcceptedStepsExactly(source: Values, target: Values, order: seq<Text>,
        provenance: Text -> Provenance, n: nat, step: Step)
    requires n <= |order| && forall k :: k in order ==> k in source && k in target
    ensures step in AcceptedSteps(source, target, order, provenance, n)
            <==> exists j :: 0 <= j < n && step == Record(provenance(source[order[j]]), target[order[j]])
  {
    if n > 0 {
      AcceptedStepsExactly(source, target, order, provenance, n - 1, step);
    }
  }

  /** An accepted key stands for its source under the memory key of its provenance. */
  ghost predicate TaughtAsAccepted(p: Policy, inp: Inputs, w: World, memoryKey: Key, target: Text) {
    exists key :: key in AcceptedOf(p, inp) && key in inp.source && target == inp.source[key]
                  && EntryKey(w.provenance(inp.source[key])) == memoryKey
  }

  /** A selected key passed with this value under the memory key of its provenance. */
  ghost predicate TaughtAsPassed(p: Policy, inp: Inputs, w: World, outcome: Outcome, memoryKey: Key, target: Text)
    requires Sane(inp)
  {
    outcome.Published? &&
      exists key :: key in KeysOf(JobsOf(p, inp)) && Learnable(p, inp.source, outcome.valid, outcome.failed, key)
                    && key in inp.source && key in outcome.valid && target == outcome.valid[key]
                    && EntryKey(w.provenance(inp.source[key])) == memoryKey
  }

  /** After a run the memory approves what it approved before, the accepted sources, and, if the run
      published, what its selected keys passed with; nothing is forgotten and nothing else joins. */
  lemma {:induction false} MemoryLearnsExactly(p: Policy, inp: Inputs, w: World, store: Store, outcome: Outcome,
        memoryKey: Key, target: Text)
    requires Sane(inp) && AcceptedInOrder(p, inp, w) && Clean(store)
    ensures target in Approved(StoreAfter(p, inp, w, store, outcome), memoryKey)
            <==> || target in Approved(store, memoryKey)
                 || TaughtAsAccepted(p, inp, w, memoryKey, target)
                 || TaughtAsPassed(p, inp, w, outcome, memoryKey, target)
  {
    var values := Translations(Prepared(p, inp));
    AcceptedAreThere(p, inp, w);
    AcceptedStepsAreSound(p, inp.source, values, inp.ledger, w.acceptedOrder, w.provenance, |w.acceptedOrder|);
    var first := AcceptedSteps(inp.source, values, w.acceptedOrder, w.provenance, |w.acceptedOrder|);
    var held := StoreAtLookup(p, inp, w, store);
    MemoryStaysClean(p, inp, w, store, outcome);
    AcceptedIsGiven(p, inp, w, memoryKey, target);
    hide Clean, Run, Sound, AcceptedSteps, UpdateSteps, JobsOf, Prepared, Translations, AcceptedOf, Approved, Learnable,
      TaughtAsAccepted;
    RecordsJoin(store, first, memoryKey, target);
    if outcome.Published? {
      var jobs := JobsOf(p, inp);
      var steps := UpdateSteps(p, inp.source, outcome.valid, jobs, outcome.failed, w.provenance, |jobs|);
      OnlyPassedKeysAreRemembered(p, inp.source, outcome.valid, jobs, outcome.failed, w.provenance, |jobs|);
      forall step | step in steps ensures Sound(step) && step.Record? {
        TaughtStepIsSound(p, inp.source, outcome.valid, jobs, outcome.failed, w.provenance, step);
      }
      RecordsJoin(held, steps, memoryKey, target);
      PassedIsGiven(p, inp.source, outcome.valid, jobs, outcome.failed, w.provenance, memoryKey, target);
    }
  }

  /** Recording steps add their targets, each under its own memory key. */
  lemma {:induction false} RecordsJoin(store: Store, steps: seq<Step>, memoryKey: Key, target: Text)
    requires Clean(store) && forall step :: step in steps ==> Sound(step) && step.Record?
    ensures target in Approved(Run(store, steps), memoryKey)
            <==> target in Approved(store, memoryKey)
                 || exists step :: step in steps && step.Record? && EntryKey(step.provenance) == memoryKey
                                   && step.target == target
  {
    hide Clean, Sound, Run, Approved, EntryKey;
    RunRefinesSets(store, steps, memoryKey, target);
    WithoutPromotion(Approved(store, memoryKey), steps, memoryKey, target);
    if step :| step in steps && step.Record? && EntryKey(step.provenance) == memoryKey && step.target == target {
      var i :| 0 <= i < |steps| && steps[i] == step;
      assert target in Given(steps[i], memoryKey);
    }
  }

  lemma {:induction false} AcceptedIsGiven(p: Policy, inp: Inputs, w: World, memoryKey: Key, target: Text)
    requires AcceptedInOrder(p, inp, w)
    requires forall k :: k in w.acceptedOrder ==> k in inp.source && k in Translations(Prepared(p, inp))
    ensures var first := AcceptedSteps(inp.source, Translations(Prepared(p, inp)), w.acceptedOrder, w.provenance,
                         |w.acceptedOrder|);
            && (forall step :: step in first ==> step.Record?)
            && (TaughtAsAccepted(p, inp, w, memoryKey, target)
                <==> exists step :: step in first && step.Record? && EntryKey(step.provenance) == memoryKey
                                    && step.target == target)
  {
    var order, values := w.acceptedOrder, Translations(Prepared(p, inp));
    var first := AcceptedSteps(inp.source, values, order, w.provenance, |order|);
    forall k | k in order ensures values[k] == inp.source[k] {
      AcceptedIsText(p, inp.source, values, inp.ledger, k);
    }
    hide AcceptedOf, Prepared, Translations, AcceptedSteps, EntryKey;
    forall step
      ensures step in first <==> exists j :: 0 <= j < |order| && step == Record(w.provenance(inp.source[order[j]]),
                                                                       values[order[j]])
    {
      AcceptedStepsExactly(inp.source, values, order, w.provenance, |order|, step);
    }
    if TaughtAsAccepted(p, inp, w, memoryKey, target) {
      var key :| key in AcceptedOf(p, inp) && key in inp.source && target == inp.source[key]
                 && EntryKey(w.provenance(inp.source[key])) == memoryKey;
      var j :| 0 <= j < |order| && order[j] == key;
      assert Record(w.provenance(inp.source[order[j]]), values[order[j]]) in first;
    }
  }

  lemma {:induction false} PassedIsGiven(p: Policy, source: Values, valid: Values, jobs: seq<Job>, failed: set<Text>,
        provenance: Text -> Provenance, memoryKey: Key, target: Text)
    ensures (exists key :: key in KeysOf(jobs) && Learnable(p, source, valid, failed, key)
                           && key in source && key in valid && target == valid[key]
                           && EntryKey(provenance(source[key])) == memoryKey)
            <==> exists step :: step in UpdateSteps(p, source, valid, jobs, failed, provenance, |jobs|) && step.Record?
                                && EntryKey(step.provenance) == memoryKey && step.target == target
  {
    hide Learnable, UpdateSteps, EntryKey;
    LearnableKey(p, source, valid, failed);
    var steps := UpdateSteps(p, source, valid, jobs, failed, provenance, |jobs|);
    forall step
      ensures step in steps
              <==> exists j :: 0 <= j < |jobs| && Learnable(p, source, valid, failed, jobs[j].key)
                               && step == Record(provenance(source[jobs[j].key]), valid[jobs[j].key])
    {
      UpdateStepsExactly(p, source, valid, jobs, failed, provenance, |jobs|, step);
    }
    if key :| key in KeysOf(jobs) && Learnable(p, source, valid, failed, key) && key in source && key in valid
              && target == valid[key] && EntryKey(provenance(source[key])) == memoryKey
    {
      var job :| job in jobs && job.key == key;
      var j :| 0 <= j < |jobs| && jobs[j] == job;
      assert Record(provenance(source[jobs[j].key]), valid[jobs[j].key]) in steps;
    }
  }
}
