/** What one run of a file can and cannot do to the published lines and to the ledger, whatever
    the model, the memory and the review answer. */
module RunSafety {
  import opened Texts
  import opened PropertiesFile
  import opened Entries
  import opened Normalizing
  import opened Ledgers
  import opened Selection
  import opened Memory
  import opened Assembly
  import opened Integration
  import opened Reviewing
  import opened FileRun

  // ----------------------------------------------------------------------- the draft

  lemma {:induction false} ToReviewIsSelected(jobs: seq<Job>, failed: set<Text>, n: nat, key: Text)
    requires n <= |jobs|
    ensures key in ToReview(jobs, failed, n) ==> key in KeysOf(jobs)
  {
    if n > 0 {
      ToReviewIsSelected(jobs, failed, n - 1, key);
      assert jobs[n - 1] in jobs;
    }
  }

  lemma {:induction false} FailedAreSelected(p: Policy, jobs: seq<Job>, b: Backing, results: seq<Result>)
    ensures FailedKeys(p, jobs, b, results) <= KeysOf(jobs)
  {
    hide Answer;
    forall k | k in FailedKeys(p, jobs, b, results) ensures k in KeysOf(jobs) {
      var i :| 0 <= i < |jobs| && jobs[i].key == k;
      assert jobs[i] in jobs;
    }
  }

  lemma {:induction false} OverrideTouches(lines: seq<Item>, values: Values, keys: set<Text>)
    requires values.Keys <= keys
    ensures Touches(lines, OverrideAll(lines, values), keys)
  {
  }

  /** Translation and review change only values of selected keys and add only entries for them,
      and only selected keys can fail. */
  lemma {:induction false} DraftTouchesSelected(p: Policy, inp: Inputs, w: World, store: Option<Store>)
    requires Sane(inp) && p.reviewChunk > 0
    ensures var jobs := JobsOf(p, inp);
            var draft := DraftOf(p, inp, w, store, jobs);
            && Touches(Prepared(p, inp), draft.lines, KeysOf(jobs))
            && draft.failed <= KeysOf(jobs)
  {
    var jobs, lines := JobsOf(p, inp), Prepared(p, inp);
    var b, results := BackingOf(inp), ResultsOf(p, w, store, jobs);
    var translations := AnswerValues(p, jobs, b, results);
    var draft := Integrated(p, inp.source, lines, jobs, translations, |jobs|);
    SelectedIsWellPlaced(ContextOf(p, inp), lines, inp.order);
    IntegrationTouchesJobs(p, inp.source, lines, jobs, translations, |ExistingJobs(ContextOf(p, inp), lines, |lines|)|);
    var failed := FailedKeys(p, jobs, b, results);
    FailedAreSelected(p, jobs, b, results);
    hide Integrated, FailedKeys, Touches, Chunks, Corrected, ReviewFailures, ToReview, WellPlaced, AnswerValues, JobsOf,
      Prepared, KeysOf;
    var keys := ToReview(jobs, failed, |jobs|);
    var chunks := Chunks(keys, p.reviewChunk);
    var corrected := Corrected(p, inp.source, w.reread(draft), chunks, w.reviews, |chunks|);
    var values := EscapedValues(p, inp.source, corrected);
    forall k ensures k in values ==> k in KeysOf(jobs)
      ensures k in ReviewFailures(chunks, w.reviews, |chunks|) ==> k in KeysOf(jobs)
    {
      ReviewStaysInScope(p, inp.source, w.reread(draft), keys, p.reviewChunk, w.reviews, k);
      ToReviewIsSelected(jobs, failed, |jobs|, k);
    }
    OverrideTouches(draft, values, KeysOf(jobs));
    TouchesTransitively(lines, draft, OverrideAll(draft, values), KeysOf(jobs));
  }

  /** Every selected key has an entry in the draft. */
  lemma {:induction false} DraftHasSelected(p: Policy, inp: Inputs, w: World, store: Option<Store>, key: Text)
    requires Sane(inp) && p.reviewChunk > 0 && key in KeysOf(JobsOf(p, inp))
    ensures HasKey(DraftOf(p, inp, w, store, JobsOf(p, inp)).lines, key)
  {
    var jobs, lines := JobsOf(p, inp), Prepared(p, inp);
    var existing := |ExistingJobs(ContextOf(p, inp), lines, |lines|)|;
    var b, results := BackingOf(inp), ResultsOf(p, w, store, jobs);
    var translations := AnswerValues(p, jobs, b, results);
    var draft := Integrated(p, inp.source, lines, jobs, translations, |jobs|);
    SelectedIsWellPlaced(ContextOf(p, inp), lines, inp.order);
    IntegratedHasKey(p, inp.source, lines, jobs, translations, existing, key);
    hide Integrated, JobsOf, Prepared, AnswerValues, Corrected, Chunks, ToReview, ReviewFailures, FailedKeys,
      WellPlaced, HasKey, OverrideAll,
      EscapedValues, KeysOf;
    ReviewKeepsKeys(p, inp.source, w, jobs, draft, FailedKeys(p, jobs, b, results), key);
  }

  lemma {:induction false} ReviewKeepsKeys(p: Policy, source: Values, w: World, jobs: seq<Job>, draft: seq<Item>,
        failed: set<Text>, key: Text)
    requires p.reviewChunk > 0 && HasKey(draft, key)
    ensures HasKey(ReviewedDraft(p, source, w, jobs, draft, failed).lines, key)
  {
    hide Corrected, Chunks, ToReview, ReviewFailures, HasKey, OverrideAll, EscapedValues;
    var chunks := Chunks(ToReview(jobs, failed, |jobs|), p.reviewChunk);
    var values := EscapedValues(p, source, Corrected(p, source, w.reread(draft), chunks, w.reviews, |chunks|));
    OverrideAllKeepsKeys(draft, values);
    SameKeysSameLast(draft, OverrideAll(draft, values), key);
  }

  lemma {:induction false} TouchesKeepsOthers(a: seq<Item>, b: seq<Item>, keys: set<Text>, key: Text)
    requires Touches(a, b, keys) && key !in keys
    ensures HasKey(a, key) <==> HasKey(b, key)
    ensures HasKey(a, key) ==> LastEntry(a, key) == LastEntry(b, key)
    ensures key in Translations(a) <==> key in Translations(b)
    ensures key in Translations(a) ==> Translations(b)[key] == Translations(a)[key]
  {
    hide Translations, NewEntry;
    TranslationsKeys(a, key);
    TranslationsKeys(b, key);
    if HasKey(b, key) {
      var i := LastEntry(b, key);
      assert i >= |a| ==> Added(b[i], keys);
      assert TouchedItem(a[i], b[i], keys);
      assert a[i].Entry? && a[i].key == key;
    }
    if HasKey(a, key) {
      var i := LastEntry(a, key);
      assert TouchedItem(a[i], b[i], keys);
      assert b[i].Entry? && b[i].key == key;
      var j := LastEntry(b, key);
      assert TouchedItem(a[j], b[j], keys);
    }
  }

  // -------------------------------------------------------------------- publications

  /** A file that a run publishes: the selected keys, the reviewed lines, the validated values and the
      failed keys. */
  datatype Publication = Publication(selected: set<Text>, draft: seq<Item>, valid: Values, failed: set<Text>)

  /** The lines handed to the writer. */
  function LinesOf(pub: Publication): seq<Item> {
    OverrideAll(pub.draft, pub.valid)
  }

  function LedgerOf(p: Policy, inp: Inputs, pub: Publication): Ledger {
    BuiltLedger(p, inp.source, Named(Translations(LinesOf(pub))), pub.failed)
  }

  function VerdictOn(p: Policy, inp: Inputs, pub: Publication, key: Text, target: Text): Verdict {
    Judged(p, inp.source, Translations(inp.lines), inp.ledger, pub.selected, key, target)
  }

  /** The draft changes values of selected keys and adds entries for them, and has them all. */
  ghost predicate Drafted(p: Policy, inp: Inputs, pub: Publication)
    requires Sane(inp)
  {
    && pub.selected == KeysOf(JobsOf(p, inp))
    && Touches(Prepared(p, inp), pub.draft, pub.selected)
    && (forall key :: key in pub.selected ==> HasKey(pub.draft, key))
    && pub.failed <= pub.selected
  }

  /** The verdicts on the selected keys with a name are published, and no failed key was blocked. */
  ghost predicate Validates(p: Policy, inp: Inputs, pub: Publication) {
    && (forall key :: key in pub.valid ==> ValidKey(p, inp, pub, key))
    && (forall key :: key in pub.selected && key != [] && key in Translations(pub.draft) ==> key in pub.valid)
    && (forall key :: key in pub.failed ==> !IsBlocked(p, inp, pub.valid, key))
  }

  predicate ValidKey(p: Policy, inp: Inputs, pub: Publication, key: Text) {
    && key in pub.valid && key in pub.selected && key != [] && key in Translations(pub.draft)
    && pub.valid[key] == VerdictOn(p, inp, pub, key, Translations(pub.draft)[key]).value
    && (VerdictOn(p, inp, pub, key, Translations(pub.draft)[key]).failed ==> key in pub.failed)
  }

  /** What every published file owes to its run, whatever was answered. */
  ghost predicate Publishes(p: Policy, inp: Inputs, pub: Publication) {
    Sane(inp) && Drafted(p, inp, pub) && Validates(p, inp, pub)
  }

  function OutcomeOf(p: Policy, inp: Inputs, pub: Publication): Outcome {
    Published(LinesOf(pub), LedgerOf(p, inp, pub), pub.failed, pub.valid)
  }

  /** Every run that publishes makes a publication of its draft, after the final check. */
  lemma {:induction false} RunPublishes(p: Policy, inp: Inputs, w: World, store: Option<Store>)
        returns (pub: Publication)
    requires Sane(inp) && p.reviewChunk > 0 && RunFile(p, inp, w, store).Published?
    ensures pub.draft == DraftOf(p, inp, w, store, JobsOf(p, inp)).lines
    ensures Publishes(p, inp, pub) && RunFile(p, inp, w, store) == OutcomeOf(p, inp, pub)
    ensures PostCheck(p, inp.source, w, Reassemble(LinesOf(pub)), pub.selected)
    ensures forall key :: key in pub.failed <==>
              key in DraftOf(p, inp, w, store, JobsOf(p, inp)).failed
              || (key in pub.valid && VerdictOn(p, inp, pub, key, Get(Translations(pub.draft), key)).failed)
  {
    var jobs := JobsOf(p, inp);
    var draft := DraftOf(p, inp, w, store, jobs);
    DraftTouchesSelected(p, inp, w, store);
    forall key | key in KeysOf(jobs) ensures HasKey(draft.lines, key) { DraftHasSelected(p, inp, w, store, key); }
    hide JobsOf, DraftOf, Judged, KeysOf, Translations, Localized, PostCheck, HasKey, Touches, Prepared, OverrideAll;
    pub := ConcludedPublishes(p, inp, w, jobs, draft);
  }

  lemma {:induction false} ConcludedPublishes(p: Policy, inp: Inputs, w: World, jobs: seq<Job>, draft: Draft)
        returns (pub: Publication)
    requires Sane(inp) && jobs == JobsOf(p, inp) && Concluded(p, inp, w, jobs, draft).Published?
    requires Touches(Prepared(p, inp), draft.lines, KeysOf(jobs)) && draft.failed <= KeysOf(jobs)
    requires forall key :: key in KeysOf(jobs) ==> HasKey(draft.lines, key)
    ensures pub.draft == draft.lines
    ensures Publishes(p, inp, pub) && Concluded(p, inp, w, jobs, draft) == OutcomeOf(p, inp, pub)
    ensures PostCheck(p, inp.source, w, Reassemble(LinesOf(pub)), pub.selected)
    ensures forall key :: key in pub.failed <==>
              key in draft.failed
              || (key in pub.valid && VerdictOn(p, inp, pub, key, Get(Translations(pub.draft), key)).failed)
  {
    hide JobsOf, Judged, KeysOf, Translations, Localized, PostCheck, HasKey, Touches, Prepared, OverrideAll, Same;
    var out := Concluded(p, inp, w, jobs, draft);
    pub := Publication(KeysOf(jobs), draft.lines, out.valid, out.failed);
    forall key | key in pub.failed ensures !IsBlocked(p, inp, pub.valid, key) {
      assert key !in BlockedKeys(p, inp, pub.valid, pub.failed);
    }
  }

  // ----------------------------------------------------------------------- the frame

  lemma {:induction false} OutsideKeysTouched(p: Policy, inp: Inputs, pub: Publication)
    requires Publishes(p, inp, pub)
    ensures Touches(Prepared(p, inp), LinesOf(pub), pub.selected)
  {
    hide JobsOf, Prepared, Touches, OverrideAll, Translations, VerdictOn;
    forall key | key in pub.valid ensures key in pub.selected { assert ValidKey(p, inp, pub, key); }
    OverrideTouches(pub.draft, pub.valid, pub.selected);
    TouchesTransitively(Prepared(p, inp), pub.draft, LinesOf(pub), pub.selected);
  }

  /** What may become of a line: a selected entry changes nothing but its value, a forced entry
      takes the source value, everything else stays. */
  predicate LineAfter(p: Policy, source: Values, selected: set<Text>, x: Item, y: Item) {
    if x.Entry? && x.key in selected then y == x.(value := if y.Entry? then y.value else [])
    else if x.Entry? && Forced(p, source, x.key) then y == x.(value := source[x.key])
    else y == x
  }

  /** Lines of a published file, one by one; what comes after the old lines are new entries of
      selected keys. */
  lemma {:induction false} PublishedLines(p: Policy, inp: Inputs, pub: Publication, i: nat)
    requires Publishes(p, inp, pub)
    ensures |inp.lines| <= |LinesOf(pub)|
    ensures i < |inp.lines| ==> LineAfter(p, inp.source, pub.selected, inp.lines[i], LinesOf(pub)[i])
    ensures |inp.lines| <= i < |LinesOf(pub)| ==> Added(LinesOf(pub)[i], pub.selected)
  {
    OutsideKeysTouched(p, inp, pub);
    hide JobsOf, KeysOf, Validates;
    if i < |inp.lines| {
      assert TouchedItem(Prepared(p, inp)[i], LinesOf(pub)[i], pub.selected);
      assert Prepared(p, inp)[i] == Override(inp.lines[i], ForcedValues(p, inp.source));
      if inp.lines[i].Entry? && inp.lines[i].key in pub.selected {
        SelectedIsNotIgnored(p, inp, inp.lines[i].key);
      }
    }
  }

  lemma {:induction false} SelectedIsNotIgnored(p: Policy, inp: Inputs, key: Text)
    requires Sane(inp) && key in KeysOf(JobsOf(p, inp))
    ensures key in inp.source && !p.ignored(key)
  {
    SelectedKeysAreTranslatable(ContextOf(p, inp), Prepared(p, inp), inp.order, key);
  }

  lemma {:induction false} JobsAre(p: Policy, inp: Inputs)
    requires Sane(inp)
    ensures JobsOf(p, inp) == Selected(ContextOf(p, inp), Prepared(p, inp), inp.order)
  {
  }

  lemma {:induction false} UnselectedKeepsValue(p: Policy, inp: Inputs, pub: Publication, key: Text)
    requires Publishes(p, inp, pub) && key !in pub.selected && !Forced(p, inp.source, key)
    ensures key in Translations(LinesOf(pub)) <==> key in Translations(inp.lines)
    ensures key in Translations(inp.lines) ==> Translations(LinesOf(pub))[key] == Translations(inp.lines)[key]
  {
    OutsideKeysTouched(p, inp, pub);
    OverrideAllTranslations(inp.lines, ForcedValues(p, inp.source), key);
    hide Publishes, Translations, OverrideAll, Touches;
    TouchesKeepsOthers(Prepared(p, inp), LinesOf(pub), pub.selected, key);
  }

  // --------------------------------------------------------------- no silent regression

  /** The published value of a selected key is the verdict on its draft value, and a failed key
      was not blocked. */
  lemma {:induction false} SelectedIsValidated(p: Policy, inp: Inputs, pub: Publication, key: Text)
    requires Publishes(p, inp, pub) && key in pub.selected && key != []
    ensures key in Translations(pub.draft) && key in Translations(LinesOf(pub)) && key in pub.valid
    ensures var verdict := VerdictOn(p, inp, pub, key, Translations(pub.draft)[key]);
            && Translations(LinesOf(pub))[key] == pub.valid[key] == verdict.value
            && (verdict.failed ==> key in pub.failed)
            && (key in pub.failed ==> !IsBlocked(p, inp, map[key := verdict.value], key))
  {
    hide JobsOf, KeysOf, Judged, OverrideAll, Translations, Touches, HasKey, Same, NonBlank;
    TranslationsKeys(pub.draft, key);
    assert ValidKey(p, inp, pub, key);
    OverrideAllTranslations(pub.draft, pub.valid, key);
  }

  /** A key whose old value was localized is never published as an echo of its source, unless it
      is ignored or exactly accepted; the empty key is the one key this does not cover. */
  lemma {:induction false} NoSilentRegression(p: Policy, inp: Inputs, pub: Publication, key: Text)
    requires Publishes(p, inp, pub) && key != [] && !p.ignored(key)
    requires key in inp.source && NonBlank(inp.source[key]) && Localized(inp.source, Translations(inp.lines), key)
    ensures key in Translations(LinesOf(pub)) && NonBlank(Translations(LinesOf(pub))[key])
    ensures Normalize(Translations(LinesOf(pub))[key]) == Normalize(inp.source[key]) ==>
              && Translations(LinesOf(pub))[key] == inp.source[key]
              && key in p.accepted && p.accepted[key] == inp.source[key]
  {
    hide Publishes, LinesOf, Translations, Judged, Normalize, NonBlank;
    if key in pub.selected {
      SelectedIsValidated(p, inp, pub, key);
      VerdictIsSafe(p, inp.source, Translations(inp.lines), inp.ledger, pub.selected, key,
          Translations(pub.draft)[key]);
    } else {
      UnselectedKeepsValue(p, inp, pub, key);
    }
  }

  // --------------------------------------------------------------------- withholding

  /** A withheld file keeps every hash, marks every selected key, and loses nothing: whatever git
      and synchronization report next time, all of them are selected again. */
  lemma {:induction false} WithheldRetriesEverything(p: Policy, inp: Inputs, w: World, store: Option<Store>,
                                                     added: set<Text>, changed: set<Text>, key: Text)
    requires Sane(inp) && p.reviewChunk > 0 && RunFile(p, inp, w, store).Withheld?
    ensures var after, selected := RunFile(p, inp, w, store).ledger, KeysOf(JobsOf(p, inp));
            && EntryOf(after, key) == (if key in selected then EntryOf(inp.ledger, key).(failed := true)
                                       else EntryOf(inp.ledger, key))
            && (key in selected ==> key in KeysOf(JobsOf(p, inp.(ledger := after, added := added, changed := changed))))
  {
    var after := MarkedFailed(inp.ledger, KeysOf(JobsOf(p, inp)));
    var next := inp.(ledger := after, added := added, changed := changed);
    hide KeysOf, Selected, Concluded, DraftOf, Prepared, PassesFilter, Translations;
    WithheldLedger(p, inp, w, JobsOf(p, inp), DraftOf(p, inp, w, store, JobsOf(p, inp)));
    if key in KeysOf(JobsOf(p, inp)) {
      FailedIsSelectedAgain(ContextOf(p, inp), ContextOf(p, next), Prepared(p, inp), inp.order, key);
    }
  }

  lemma {:induction false} WithheldLedger(p: Policy, inp: Inputs, w: World, jobs: seq<Job>, draft: Draft)
    requires Concluded(p, inp, w, jobs, draft).Withheld?
    ensures Concluded(p, inp, w, jobs, draft).ledger == MarkedFailed(inp.ledger, KeysOf(jobs))
  {
  }

  lemma {:induction false} FailedIsSelectedAgain(c: Context, d: Context, lines: seq<Item>, order: seq<Text>, key: Text)
    requires Orders(order, c.source) && c.p == d.p && c.source == d.source
    requires EntryOf(d.ledger, key).failed && key !in d.accepted
    requires key in KeysOf(Selected(c, lines, order))
    ensures key in KeysOf(Selected(d, lines, order))
  {
    hide Selected, KeysOf;
    SelectedKeysExact(c, lines, order, key);
    SelectedKeysExact(d, lines, order, key);
    if KeyPicked(c, lines, key) {
      var i: nat :| PicksLine(c, lines, i) && lines[i].key == key;
      assert PicksLine(d, lines, i);
    }
  }

  // ------------------------------------------------------------------- the empty key

  /** The empty key is selected and translated like any other, but no check ever sees it: its
      published value is whatever the draft holds, and the new ledger does not know it. */
  lemma {:induction false} EmptyKeyIsNotValidated(p: Policy, inp: Inputs, pub: Publication)
    requires Publishes(p, inp, pub)
    ensures [] !in pub.valid && [] !in LedgerOf(p, inp, pub)
    ensures [] in Translations(LinesOf(pub)) <==> [] in Translations(pub.draft)
    ensures [] in Translations(pub.draft) ==> Translations(LinesOf(pub))[[]] == Translations(pub.draft)[[]]
  {
    hide Drafted, VerdictOn, OverrideAll, Translations;
    assert !ValidKey(p, inp, pub, []);
    OverrideAllTranslations(pub.draft, pub.valid, []);
  }

  lemma {:induction false} EmptyKeyFollowsDraft(p: Policy, inp: Inputs, pub: Publication)
    requires Publishes(p, inp, pub) && Localized(inp.source, Translations(inp.lines), [])
    ensures [] in Translations(LinesOf(pub)) && [] in Translations(pub.draft)
    ensures Translations(LinesOf(pub))[[]] == Translations(pub.draft)[[]]
  {
    EmptyKeyIsNotValidated(p, inp, pub);
    OverrideAllTranslations(inp.lines, ForcedValues(p, inp.source), []);
    hide JobsOf, LinesOf, KeysOf, OverrideAll, Translations, Normalize, NonBlank, Touches, Validates, HasKey;
    TouchesKeepsKeys(Prepared(p, inp), pub.draft, pub.selected, []);
  }

  /** The answers of memory and model, one for each job, with their fallbacks. */
  ghost function AnswersOf(p: Policy, inp: Inputs, w: World, store: Option<Store>): (answers: seq<Text>)
    requires Sane(inp)
    ensures |answers| == |JobsOf(p, inp)|
  {
    AnswerValues(p, JobsOf(p, inp), BackingOf(inp), ResultsOf(p, w, store, JobsOf(p, inp)))
  }

  /** The keys the review is asked about, and what it makes of them. */
  ghost function ReviewOf(p: Policy, inp: Inputs, w: World, store: Option<Store>): Values
    requires Sane(inp) && p.reviewChunk > 0
  {
    var jobs := JobsOf(p, inp);
    var failed := FailedKeys(p, jobs, BackingOf(inp), ResultsOf(p, w, store, jobs));
    var draft := Integrated(p, inp.source, Prepared(p, inp), jobs, AnswersOf(p, inp, w, store), |jobs|);
    var chunks := Chunks(ToReview(jobs, failed, |jobs|), p.reviewChunk);
    EscapedValues(p, inp.source, Corrected(p, inp.source, w.reread(draft), chunks, w.reviews, |chunks|))
  }

  /** Some job writes the answer `value` on line `i`. */
  ghost predicate WritesOn(p: Policy, source: Values, jobs: seq<Job>, answers: seq<Text>, i: nat, value: Text)
    requires |jobs| == |answers|
  {
    exists j :: 0 <= j < |jobs| && jobs[j].index == i && value == p.escape(Get(source, jobs[j].key), answers[j])
  }

  /** The integrated value of a key that the file has: the answer for its last line, or the old value. */
  lemma {:induction false} IntegratedValue(c: Context, lines: seq<Item>, order: seq<Text>, answers: seq<Text>,
        key: Text)
    requires Orders(order, c.source) && |answers| == |Selected(c, lines, order)| && HasKey(lines, key)
    ensures var jobs := Selected(c, lines, order);
            var after, i := Integrated(c.p, c.source, lines, jobs, answers, |jobs|), LastEntry(lines, key);
            && key in Translations(after)
            && (WritesOn(c.p, c.source, jobs, answers, i, Translations(after)[key])
                || (Translations(after)[key] == lines[i].value && forall j :: 0 <= j < |jobs| ==> jobs[j].index != i))
  {
    hide Integrated, Selected, ExistingJobs, Translations, WellPlaced, HasKey, Touches;
    var jobs, found, i := Selected(c, lines, order), ExistingJobs(c, lines, |lines|), LastEntry(lines, key);
    var after := Integrated(c.p, c.source, lines, jobs, answers, |jobs|);
    SelectedIsWellPlaced(c, lines, order);
    IntegrationTouchesJobs(c.p, c.source, lines, jobs, answers, |found|);
    forall k | |lines| <= k < |after| ensures after[k].Entry? && after[k].key != key {
      AppendedEntry(c, lines, order, answers, k);
    }
    LastStaysLast(lines, after, KeysOf(jobs), key);
    IntegrationIsExact(c.p, c.source, lines, jobs, answers, |found|, |jobs|);
    if j :| 0 <= j < |jobs| && jobs[j].index == i {
      assert after[i] == Target(c.p, c.source, lines, jobs[j], answers[j]);
    }
  }

  lemma {:induction false} LastStaysLast(a: seq<Item>, b: seq<Item>, keys: set<Text>, key: Text)
    requires Touches(a, b, keys) && HasKey(a, key) && forall k :: |a| <= k < |b| ==> b[k].Entry? && b[k].key != key
    ensures HasKey(b, key) && LastEntry(b, key) == LastEntry(a, key)
    ensures key in Translations(b) && Translations(b)[key] == b[LastEntry(a, key)].value
  {
    hide Translations, NewEntry;
    var i := LastEntry(a, key);
    assert TouchedItem(a[i], b[i], keys);
    TranslationOf(b, i);
    var j := LastEntry(b, key);
    assert TouchedItem(a[j], b[j], keys);
  }

  /** The draft value of a key that the file has: what the review made of it or, where it was not
      reviewed, the answer for its last line, or the old value where that line has no job. */
  lemma {:induction false} DraftValue(p: Policy, inp: Inputs, w: World, store: Option<Store>, key: Text)
    requires Sane(inp) && p.reviewChunk > 0 && HasKey(inp.lines, key) && !(key != [] && p.ignored(key))
    ensures var draft, review := DraftOf(p, inp, w, store, JobsOf(p, inp)).lines, ReviewOf(p, inp, w, store);
            var jobs, answers, i := JobsOf(p, inp), AnswersOf(p, inp, w, store), LastEntry(inp.lines, key);
            && key in Translations(draft)
            && (if key in review then Translations(draft)[key] == review[key]
                else WritesOn(p, inp.source, jobs, answers, i, Translations(draft)[key])
                     || (Translations(draft)[key] == inp.lines[i].value && forall j :: 0 <= j < |jobs| ==>
                        jobs[j].index != i))
  {
    var lines, jobs, answers := Prepared(p, inp), JobsOf(p, inp), AnswersOf(p, inp, w, store);
    OverrideAllKeepsKeys(inp.lines, ForcedValues(p, inp.source));
    SameKeysSameLast(inp.lines, lines, key);
    IntegratedValue(ContextOf(p, inp), lines, inp.order, answers, key);
    hide Integrated, Selected, FailedKeys, ToReview, Chunks, Corrected, ReviewFailures, Translations, HasKey, WritesOn,
      ResultsOf, AnswerValues;
    OverrideAllTranslations(Integrated(p, inp.source, lines, jobs, answers, |jobs|), ReviewOf(p, inp, w, store), key);
  }

  /** What would bring the source back under the empty key: the review's value for it or, where it was
      not reviewed, the answer for its last line. */
  ghost predicate BringsSourceBack(p: Policy, inp: Inputs, w: World, store: Option<Store>)
    requires Sane(inp) && p.reviewChunk > 0 && HasKey(inp.lines, [])
  {
    var review, s := ReviewOf(p, inp, w, store), Get(inp.source, []);
    if [] in review then Same(review[[]], s)
    else exists value :: WritesOn(p, inp.source, JobsOf(p, inp), AnswersOf(p, inp, w, store), LastEntry(inp.lines, []),
                         value) && Same(value, s)
  }

  /** So a localized value under the empty key becomes its source in a published file if and only if
      the review, or else the answer for its last line, equals the source. */
  lemma {:induction false} EmptyKeyRegression(p: Policy, inp: Inputs, w: World, store: Option<Store>)
    requires Sane(inp) && p.reviewChunk > 0 && RunFile(p, inp, w, store).Published?
    requires Localized(inp.source, Translations(inp.lines), [])
    ensures [] in Translations(RunFile(p, inp, w, store).lines) && HasKey(inp.lines, [])
    ensures Same(Translations(RunFile(p, inp, w, store).lines)[[]], Get(inp.source, []))
            <==> BringsSourceBack(p, inp, w, store)
  {
    hide RunFile, DraftOf, JobsOf, AnswersOf, ReviewOf, Publishes, LinesOf, BuiltLedger, Translations, Normalize,
      NonBlank, HasKey, Sane, PostCheck;
    TranslationsKeys(inp.lines, []);
    var pub := RunPublishes(p, inp, w, store);
    EmptyKeyFollowsDraft(p, inp, pub);
    DraftValue(p, inp, w, store, []);
    SameAnswerOnLine(p, inp, w, store);
  }

  /** At most one job writes on a line. */
  lemma {:induction false} SameAnswerOnLine(p: Policy, inp: Inputs, w: World, store: Option<Store>)
    requires Sane(inp)
    ensures forall i, x, y ::
              (&& WritesOn(p, inp.source, JobsOf(p, inp), AnswersOf(p, inp, w, store), i, x)
               && WritesOn(p, inp.source, JobsOf(p, inp), AnswersOf(p, inp, w, store), i, y)) ==> x == y
  {
    hide Selected, AnswersOf, ExistingJobs;
    JobsAre(p, inp);
    SelectedIsWellPlaced(ContextOf(p, inp), Prepared(p, inp), inp.order);
  }

  lemma {:induction false} TouchesKeepsKeys(a: seq<Item>, b: seq<Item>, keys: set<Text>, key: Text)
    requires Touches(a, b, keys) && key in Translations(a)
    ensures key in Translations(b)
  {
    hide Translations, NewEntry;
    TranslationsKeys(a, key);
    TranslationsKeys(b, key);
    var i := LastEntry(a, key);
    assert TouchedItem(a[i], b[i], keys);
    assert b[i].Entry? && b[i].key == key;
  }
}
