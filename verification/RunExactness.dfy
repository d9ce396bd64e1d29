/** When exactly a run fails a key, and how exactly it ends. */
module RunExactness {
  import opened Texts
  import opened PropertiesFile
  import opened Entries
  import opened Normalizing
  import opened Ledgers
  import opened Selection
  import opened Memory
  import opened Assembly
  import opened Integration
  import opened Reviewing
  import opened FileRun
  import opened RunSafety
  import opened RunSelection

  // ------------------------------------------------------------------ failed keys

  /** Some job of the key has neither a memory answer nor a good result of the model. */
  ghost predicate Unanswered(jobs: seq<Job>, results: seq<Result>, key: Text) {
    exists i :: 0 <= i < |jobs| && jobs[i].key == key && forall r :: r in results && r.position == i ==> !r.ok
  }

  /** The review was asked for the key and gave no mapping, or one that leaves it out. */
  ghost predicate Unreviewed(chunks: seq<seq<Text>>, answers: nat -> ChunkAnswer, key: Text) {
    exists i :: 0 <= i < |chunks| && key in chunks[i]
                && (answers(i).NoMapping? || (answers(i).values != map[] && key !in answers(i).values))
  }

  /** The chunks a run asks the review about. */
  ghost function ReviewChunks(p: Policy, inp: Inputs, w: World, store: Option<Store>): seq<seq<Text>>
    requires Sane(inp) && p.reviewChunk > 0
  {
    var jobs := JobsOf(p, inp);
    Chunks(ToReview(jobs, FailedKeys(p, jobs, BackingOf(inp), ResultsOf(p, w, store, jobs)), |jobs|), p.reviewChunk)
  }

  lemma {:induction false} ToReviewExactly(jobs: seq<Job>, failed: set<Text>, n: nat, key: Text)
    requires n <= |jobs|
    ensures key in ToReview(jobs, failed, n) <==> key !in failed && exists i :: 0 <= i < n && jobs[i].key == key
  {
    if n > 0 {
      ToReviewExactly(jobs, failed, n - 1, key);
    }
  }

  lemma {:induction false} HasJob(jobs: seq<Job>, key: Text)
    ensures key in KeysOf(jobs) <==> exists i :: 0 <= i < |jobs| && jobs[i].key == key
  {
    if i :| 0 <= i < |jobs| && jobs[i].key == key { assert jobs[i] in jobs; }
  }

  /** The review is asked for the selected keys that were answered, and for no other. */
  lemma {:induction false} ReviewedExactly(p: Policy, inp: Inputs, w: World, store: Option<Store>, key: Text)
    requires Sane(inp) && p.reviewChunk > 0
    requires Positioned(ResultsOf(p, w, store, JobsOf(p, inp)), |JobsOf(p, inp)|)
    ensures key in Joined(ReviewChunks(p, inp, w, store))
            <==> key in KeysOf(JobsOf(p, inp))
                 && !Unanswered(JobsOf(p, inp), ResultsOf(p, w, store, JobsOf(p, inp)), key)
  {
    hide JobsOf, ResultsOf, FailedKeys, ToReview, Chunks, Joined, KeysOf, Positioned;
    var jobs := JobsOf(p, inp);
    var results := ResultsOf(p, w, store, jobs);
    var failed := FailedKeys(p, jobs, BackingOf(inp), results);
    FailedKeysExact(p, jobs, BackingOf(inp), results, key);
    ToReviewExactly(jobs, failed, |jobs|, key);
    ChunksAreConsecutive(ToReview(jobs, failed, |jobs|), p.reviewChunk);
    HasJob(jobs, key);
  }

  /** A draft fails exactly the keys that were not answered and those the review failed. */
  lemma {:induction false} DraftFailsExactly(p: Policy, inp: Inputs, w: World, store: Option<Store>, key: Text)
    requires Sane(inp) && p.reviewChunk > 0
    requires Positioned(ResultsOf(p, w, store, JobsOf(p, inp)), |JobsOf(p, inp)|)
    ensures key in DraftOf(p, inp, w, store, JobsOf(p, inp)).failed
            <==> Unanswered(JobsOf(p, inp), ResultsOf(p, w, store, JobsOf(p, inp)), key)
                 || Unreviewed(ReviewChunks(p, inp, w, store), w.reviews, key)
  {
    hide JobsOf, ResultsOf, FailedKeys, ToReview, Chunks, Positioned, ReviewFailures, Integrated, OverrideAll,
      Corrected, AnswerValues;
    var jobs := JobsOf(p, inp);
    FailedKeysExact(p, jobs, BackingOf(inp), ResultsOf(p, w, store, jobs), key);
    var chunks := ReviewChunks(p, inp, w, store);
    ReviewFailsExactly(chunks, w.reviews, |chunks|, key);
  }

  /** The value the draft offers for a key. */
  ghost function Offered(pub: Publication, key: Text): Text {
    Get(Translations(pub.draft), key)
  }

  /** A published run marks a named key failed exactly when it was selected and not answered, failed in
      review, or was offered a value that validation discards or that repeats the source unwanted. */
  lemma {:induction false} FailedExactly(p: Policy, inp: Inputs, w: World, store: Option<Store>, key: Text)
        returns (pub: Publication)
    requires Sane(inp) && p.reviewChunk > 0 && RunFile(p, inp, w, store).Published? && key != []
    requires Positioned(ResultsOf(p, w, store, JobsOf(p, inp)), |JobsOf(p, inp)|)
    ensures Publishes(p, inp, pub) && RunFile(p, inp, w, store) == OutcomeOf(p, inp, pub)
    ensures pub.draft == DraftOf(p, inp, w, store, JobsOf(p, inp)).lines
    ensures key in pub.failed
            <==> || Unanswered(JobsOf(p, inp), ResultsOf(p, w, store, JobsOf(p, inp)), key)
                 || Unreviewed(ReviewChunks(p, inp, w, store), w.reviews, key)
                 || (key in pub.selected && key in inp.source
                     && var s, existing := inp.source[key], Translations(inp.lines);
                        || Discards(p, s, existing, inp.ledger, pub.selected, key, Offered(pub, key))
                        || Unwanted(p, s, existing, pub.selected, key, Offered(pub, key)))
  {
    hide JobsOf, ResultsOf, DraftOf, RunFile, Positioned, Drafted, LinesOf, LedgerOf, Judged, Translations, Discards,
      Unwanted, Unanswered, Unreviewed, PostCheck, IsBlocked;
    pub := RunPublishes(p, inp, w, store);
    DraftFailsExactly(p, inp, w, store, key);
    assert key in pub.valid ==> ValidKey(p, inp, pub, key);
    if key in pub.selected {
      SelectedHasOffer(p, inp, pub, key);
      VerdictIsExact(p, inp.source, Translations(inp.lines), inp.ledger, pub.selected, key, Offered(pub, key));
    }
  }

  lemma {:induction false} SelectedHasOffer(p: Policy, inp: Inputs, pub: Publication, key: Text)
    requires Publishes(p, inp, pub) && key != [] && key in pub.selected
    ensures key in pub.valid && key in inp.source && !p.ignored(key) && key in Translations(pub.draft)
  {
    hide JobsOf, KeysOf, Translations, HasKey, Touches, VerdictOn;
    SelectedIsNotIgnored(p, inp, key);
    TranslationsKeys(pub.draft, key);
  }

  /** In every publication, a selected key with a name that shows its source, unaccepted, is marked
      failed; so is one whose published value would be blank. */
  lemma {:induction false} EchoesAreMarked(p: Policy, inp: Inputs, pub: Publication, key: Text)
    requires Publishes(p, inp, pub) && key in pub.selected && key != []
    ensures key in inp.source && key in Translations(LinesOf(pub))
    ensures Repeats(p, key, inp.source[key], Translations(LinesOf(pub))[key]) ==> key in pub.failed
    ensures NonBlank(inp.source[key]) ==> NonBlank(Translations(LinesOf(pub))[key])
  {
    hide Publishes, LinesOf, Translations, Judged, Normalize, NonBlank, Discards;
    SelectedIsValidated(p, inp, pub, key);
    SelectedHasOffer(p, inp, pub, key);
    VerdictIsExact(p, inp.source, Translations(inp.lines), inp.ledger, pub.selected, key, Offered(pub, key));
    VerdictIsSafe(p, inp.source, Translations(inp.lines), inp.ledger, pub.selected, key, Offered(pub, key));
  }

  // ------------------------------------------------------------- the value on offer

  /** The answer of a selected key: that of the job for its last line or, for a key the file lacks, of
      its one job. */
  lemma {:induction false} NewKeyDraft(p: Policy, inp: Inputs, w: World, store: Option<Store>, key: Text)
    requires Sane(inp) && p.reviewChunk > 0 && !HasKey(inp.lines, key) && key in inp.source && !p.ignored(key)
    ensures var draft, review := DraftOf(p, inp, w, store, JobsOf(p, inp)).lines, ReviewOf(p, inp, w, store);
            && key in Translations(draft)
            && (if key in review then Translations(draft)[key] == review[key]
                else exists j :: 0 <= j < |JobsOf(p, inp)| && JobsOf(p, inp)[j].key == key
                                 && Translations(draft)[key]
                                    == p.escape(inp.source[key], AnswersOf(p, inp, w, store)[j]))
  {
    var lines, jobs, answers := Prepared(p, inp), JobsOf(p, inp), AnswersOf(p, inp, w, store);
    PreparedKeeps(p, inp, key);
    JobsAre(p, inp);
    AppendedValue(ContextOf(p, inp), lines, inp.order, answers, key);
    hide Integrated, Selected, FailedKeys, ToReview, Chunks, Corrected, ReviewFailures, Translations, HasKey,
      ResultsOf, AnswerValues, Prepared, JobsOf;
    OverrideAllTranslations(Integrated(p, inp.source, lines, jobs, answers, |jobs|), ReviewOf(p, inp, w, store), key);
  }

  lemma {:induction false} AppendedValue(c: Context, lines: seq<Item>, order: seq<Text>, answers: seq<Text>, key: Text)
    requires Orders(order, c.source) && |answers| == |Selected(c, lines, order)|
    requires !HasKey(lines, key) && key in c.source && !c.p.ignored(key)
    ensures var jobs := Selected(c, lines, order);
            var after := Integrated(c.p, c.source, lines, jobs, answers, |jobs|);
            && key in Translations(after)
            && exists j :: 0 <= j < |jobs| && jobs[j].key == key
                           && Translations(after)[key] == c.p.escape(c.source[key], answers[j])
  {
    hide Integrated, Selected, ExistingJobs, Translations, WellPlaced, HasKey, Touches, IsNew;
    var jobs, found := Selected(c, lines, order), ExistingJobs(c, lines, |lines|);
    var after := Integrated(c.p, c.source, lines, jobs, answers, |jobs|);
    SelectedKeysExact(c, lines, order, key);
    NewIsSelected(c, lines, key);
    SelectedIsWellPlaced(c, lines, order);
    IntegratedHasKey(c.p, c.source, lines, jobs, answers, |found|, key);
    TranslationsKeys(after, key);
    IntegrationTouchesJobs(c.p, c.source, lines, jobs, answers, |found|);
    IntegrationIsExact(c.p, c.source, lines, jobs, answers, |found|, |jobs|);
    var i := LastEntry(after, key);
    LastIsAppended(lines, after, KeysOf(jobs), key);
    var j := JobOf(c, lines, order, answers, i);
    assert after[i] == Target(c.p, c.source, lines, jobs[j], answers[j]);
  }

  lemma {:induction false} NewIsSelected(c: Context, lines: seq<Item>, key: Text)
    requires !HasKey(lines, key) && !c.p.ignored(key)
    ensures IsNew(c, lines, key)
  {
  }

  lemma {:induction false} LastIsAppended(lines: seq<Item>, after: seq<Item>, keys: set<Text>, key: Text)
    requires Touches(lines, after, keys) && !HasKey(lines, key) && HasKey(after, key)
    ensures LastEntry(after, key) >= |lines|
  {
    hide NewEntry;
    var i := LastEntry(after, key);
    assert i < |lines| ==> TouchedItem(lines[i], after[i], keys);
  }

  lemma {:induction false} JobOf(c: Context, lines: seq<Item>, order: seq<Text>, answers: seq<Text>, i: nat)
      returns (j: nat)
    requires Orders(order, c.source) && |answers| == |Selected(c, lines, order)|
    requires |lines| <= i < |Integrated(c.p, c.source, lines, Selected(c, lines, order), answers, |answers|)|
    ensures j < |answers| && Selected(c, lines, order)[j].index == i
  {
    hide ExistingJobs, NewJobs;
    var found, added := ExistingJobs(c, lines, |lines|), NewJobs(c, lines, order, |order|);
    AppendedEntry(c, lines, order, answers, i);
    NewJobsExact(c, lines, order, |order|);
    j := |found| + (i - |lines|);
    assert Selected(c, lines, order)[j] == added[i - |lines|];
  }

  /** A job that the memory answers, or that the model answered well, has that answer in the draft. */
  lemma {:induction false} GoodAnswersAreUsed(p: Policy, inp: Inputs, w: World, store: Option<Store>, j: nat)
    requires Sane(inp) && p.reviewChunk > 0 && j < |JobsOf(p, inp)|
    requires Positioned(ResultsOf(p, w, store, JobsOf(p, inp)), |JobsOf(p, inp)|)
    ensures forall value :: Reused(p, Recall(store, w.provenance), JobsOf(p, inp)[j]) == Some(value) ==>
              AnswersOf(p, inp, w, store)[j] == value
    ensures forall r :: r in w.completed && r.position == j && r.ok ==> AnswersOf(p, inp, w, store)[j] == r.value
  {
    hide JobsOf, Positioned, Reused, CachedResults, Answer;
    var jobs := JobsOf(p, inp);
    var recall := Recall(store, w.provenance);
    var cached := CachedResults(p, recall, jobs, |jobs|);
    AnswerIsExact(p, jobs, BackingOf(inp), cached + w.completed, j);
    if Reused(p, recall, jobs[j]).Some? {
      CachedHas(p, recall, jobs, |jobs|, j);
      assert Result(j, Reused(p, recall, jobs[j]).value, true) in cached + w.completed;
    }
  }

  lemma {:induction false} CachedHas(p: Policy, recall: Recall, jobs: seq<Job>, n: nat, j: nat)
    requires j < n <= |jobs| && Reused(p, recall, jobs[j]).Some?
    ensures Result(j, Reused(p, recall, jobs[j]).value, true) in CachedResults(p, recall, jobs, n)
  {
    hide Reused;
    if j < n - 1 { CachedHas(p, recall, jobs, n - 1, j); }
  }

  /** What the review makes of a key it was asked about, escaped for the file. */
  lemma {:induction false} ReviewIsEscaped(p: Policy, inp: Inputs, w: World, store: Option<Store>, key: Text)
    requires Sane(inp) && p.reviewChunk > 0
    ensures key in ReviewOf(p, inp, w, store) <==> key in Joined(ReviewChunks(p, inp, w, store))
    ensures key in ReviewOf(p, inp, w, store) && key in inp.source ==>
              var jobs, chunks := JobsOf(p, inp), ReviewChunks(p, inp, w, store);
              var draft := Integrated(p, inp.source, Prepared(p, inp), jobs, AnswersOf(p, inp, w, store), |jobs|);
              var corrected := Corrected(p, inp.source, w.reread(draft), chunks, w.reviews, |chunks|);
              key in corrected && ReviewOf(p, inp, w, store)[key] == p.escape(inp.source[key], corrected[key])
  {
    var jobs := JobsOf(p, inp);
    var keys := ToReview(jobs, FailedKeys(p, jobs, BackingOf(inp), ResultsOf(p, w, store, jobs)), |jobs|);
    var draft := Integrated(p, inp.source, Prepared(p, inp), jobs, AnswersOf(p, inp, w, store), |jobs|);
    ReviewStaysInScope(p, inp.source, w.reread(draft), keys, p.reviewChunk, w.reviews, key);
    ChunksAreConsecutive(keys, p.reviewChunk);
    hide JobsOf, Integrated, Prepared, AnswersOf, FailedKeys, ResultsOf, ToReview, Chunks, Corrected, Joined;
  }

  // --------------------------------------------------------------------- how a run ends

  /** What a run with selected keys would publish. */
  ghost function Proposal(p: Policy, inp: Inputs, w: World, store: Option<Store>): Publication
    requires Sane(inp) && p.reviewChunk > 0
  {
    var jobs, existing := JobsOf(p, inp), Translations(inp.lines);
    var draft := DraftOf(p, inp, w, store, jobs);
    var offers := ChangedValues(jobs, draft.lines);
    Publication(KeysOf(jobs), draft.lines, ValidValues(p, inp.source, existing, inp.ledger, KeysOf(jobs), offers),
                InvalidKeys(p, inp.source, existing, inp.ledger, KeysOf(jobs), offers) + draft.failed)
  }

  /** A failed key whose value of its own would give way to its source. */
  ghost predicate GivesWay(inp: Inputs, pub: Publication, key: Text) {
    && key in pub.failed && key in inp.source && HadOwnValue(inp.source[key], Translations(inp.lines), key)
    && Normalize(if key == [] then [] else Get(Translations(LinesOf(pub)), key)) == Normalize(inp.source[key])
  }

  /** The text to be written can be encoded, and each selected key that it shows keeps its placeholders
      and, unless it equals its source, its glossary terms. */
  ghost predicate StandsUp(p: Policy, inp: Inputs, w: World, pub: Publication) {
    var text := Reassemble(LinesOf(pub));
    && w.encoded(text)
    && forall key :: key in pub.selected && key in Translations(ParseFile(text)) && key in inp.source ==>
         var s, shown := inp.source[key], Translations(ParseFile(text))[key];
         p.placeholdersKept(s, shown) && (Normalize(s) == Normalize(shown) || p.glossaryKept(s, shown))
  }

  /** `pub` is what jobs and draft propose. */
  ghost predicate Proposes(p: Policy, inp: Inputs, jobs: seq<Job>, draft: Draft, pub: Publication) {
    var existing, offers := Translations(inp.lines), ChangedValues(jobs, draft.lines);
    && pub.selected == KeysOf(jobs) && pub.draft == draft.lines
    && pub.valid == ValidValues(p, inp.source, existing, inp.ledger, pub.selected, offers)
    && pub.failed == InvalidKeys(p, inp.source, existing, inp.ledger, pub.selected, offers) + draft.failed
  }

  lemma {:induction false} ProposalProposes(p: Policy, inp: Inputs, w: World, store: Option<Store>)
    requires Sane(inp) && p.reviewChunk > 0
    ensures Proposes(p, inp, JobsOf(p, inp), DraftOf(p, inp, w, store, JobsOf(p, inp)), Proposal(p, inp, w, store))
  {
    hide JobsOf, DraftOf, ValidValues, InvalidKeys, ChangedValues, Translations, KeysOf;
  }

  lemma {:induction false} BlockedGivesWay(p: Policy, inp: Inputs, jobs: seq<Job>, draft: Draft, pub: Publication,
        key: Text)
    requires Proposes(p, inp, jobs, draft, pub) && key in pub.failed && key in KeysOf(jobs) && HasKey(draft.lines, key)
    requires key in inp.source && !p.ignored(key)
    ensures IsBlocked(p, inp, pub.valid, key) <==> GivesWay(inp, pub, key)
  {
    hide KeysOf, Translations, HasKey, OverrideAll, Normalize, NonBlank, Judged, InvalidKeys;
    TranslationsKeys(draft.lines, key);
    OverrideAllTranslations(draft.lines, pub.valid, key);
  }

  lemma {:induction false} FinalCheckStandsUp(p: Policy, inp: Inputs, w: World, pub: Publication)
    requires forall key :: key in pub.selected ==> !p.ignored(key)
    ensures PostCheck(p, inp.source, w, Reassemble(LinesOf(pub)), pub.selected) <==> StandsUp(p, inp, w, pub)
  {
    hide Reassemble, LinesOf, Translations, ParseFile, Normalize;
    var text := Reassemble(LinesOf(pub));
    var shown := Translations(ParseFile(text));
    if StandsUp(p, inp, w, pub) {
      forall key | key in inp.source && key in shown
        ensures KeyPasses(p, pub.selected, key, inp.source[key], shown[key])
      {
      }
    }
    if PostCheck(p, inp.source, w, text, pub.selected) {
      forall key | key in pub.selected && key in shown && key in inp.source
        ensures KeyPasses(p, pub.selected, key, inp.source[key], shown[key])
      {
      }
    }
  }

  lemma {:induction false} ConcludedProposal(p: Policy, inp: Inputs, w: World, jobs: seq<Job>, draft: Draft,
        pub: Publication)
    requires Proposes(p, inp, jobs, draft, pub)
    requires forall key :: key in pub.failed ==> (IsBlocked(p, inp, pub.valid, key) <==> GivesWay(inp, pub, key))
    requires PostCheck(p, inp.source, w, Reassemble(LinesOf(pub)), pub.selected) <==> StandsUp(p, inp, w, pub)
    ensures var out := Concluded(p, inp, w, jobs, draft);
            && (out.Withheld? <==> exists key :: GivesWay(inp, pub, key))
            && (out.Rejected? <==> (forall key :: !GivesWay(inp, pub, key)) && !StandsUp(p, inp, w, pub))
            && (out.Published? <==> (forall key :: !GivesWay(inp, pub, key)) && StandsUp(p, inp, w, pub))
            && (out.Published? ==> out == OutcomeOf(p, inp, pub))
            && (out.Rejected? ==> out.ledger == inp.ledger)
  {
    hide KeysOf, Translations, ValidValues, InvalidKeys, ChangedValues, IsBlocked, PostCheck, StandsUp, BuiltLedger,
      Reassemble, OverrideAll;
    assert forall key :: GivesWay(inp, pub, key) ==> key in pub.failed;
    hide GivesWay;
    var blocked := BlockedKeys(p, inp, pub.valid, pub.failed);
    assert forall key :: key in blocked <==> GivesWay(inp, pub, key);
    assert blocked != {} ==> exists key :: key in blocked;
  }

  /** A run with selected keys withholds the file exactly when a failed key would lose a value of its
      own, rejects it exactly when it would not, but the text does not stand up, and publishes it
      otherwise. */
  lemma {:induction false} RunEnds(p: Policy, inp: Inputs, w: World, store: Option<Store>)
    requires Sane(inp) && p.reviewChunk > 0 && JobsOf(p, inp) != []
    ensures var pub, out := Proposal(p, inp, w, store), RunFile(p, inp, w, store);
            && (out.Withheld? <==> exists key :: GivesWay(inp, pub, key))
            && (out.Rejected? <==> (forall key :: !GivesWay(inp, pub, key)) && !StandsUp(p, inp, w, pub))
            && (out.Published? <==> (forall key :: !GivesWay(inp, pub, key)) && StandsUp(p, inp, w, pub))
            && (out.Published? ==> out == OutcomeOf(p, inp, pub))
            && (out.Rejected? ==> out.ledger == inp.ledger)
  {
    var pub, jobs := Proposal(p, inp, w, store), JobsOf(p, inp);
    var draft := DraftOf(p, inp, w, store, jobs);
    ProposalProposes(p, inp, w, store);
    DraftTouchesSelected(p, inp, w, store);
    forall key | key in pub.selected ensures key in inp.source && !p.ignored(key) { SelectedIsNotIgnored(p, inp, key); }
    hide JobsOf, DraftOf, Touches, KeysOf, Translations, ValidValues, InvalidKeys, ChangedValues, IsBlocked, GivesWay,
      LinesOf, PostCheck, StandsUp, BuiltLedger, Reassemble, Concluded, Judged;
    forall key | key in pub.failed ensures IsBlocked(p, inp, pub.valid, key) <==> GivesWay(inp, pub, key) {
      ProposedIsSelected(p, inp, jobs, draft, pub, key);
      DraftHasSelected(p, inp, w, store, key);
      BlockedGivesWay(p, inp, jobs, draft, pub, key);
    }
    FinalCheckStandsUp(p, inp, w, pub);
    ConcludedProposal(p, inp, w, jobs, draft, pub);
  }

  lemma {:induction false} ProposedIsSelected(p: Policy, inp: Inputs, jobs: seq<Job>, draft: Draft, pub: Publication,
        key: Text)
    requires Proposes(p, inp, jobs, draft, pub) && draft.failed <= KeysOf(jobs) && key in pub.failed
    ensures key in KeysOf(jobs)
  {
    hide KeysOf, Translations, Judged;
  }

  /** What a file is written as when nothing is selected: its ignored keys with a name show the source. */
  function Reset(p: Policy, source: Values, item: Item): Item {
    if item.Entry? && item.key != [] && p.ignored(item.key) && item.key in source
    then item.(value := source[item.key]) else item
  }

  ghost predicate ResetAt(p: Policy, inp: Inputs, i: nat) {
    i < |inp.lines| && Reset(p, inp.source, inp.lines[i]) != inp.lines[i]
  }

  lemma {:induction false} PreparedIsReset(p: Policy, inp: Inputs)
    ensures |Prepared(p, inp)| == |inp.lines|
    ensures forall i :: 0 <= i < |inp.lines| ==> Prepared(p, inp)[i] == Reset(p, inp.source, inp.lines[i])
  {
  }

  lemma {:induction false} OutputExactly(p: Policy, inp: Inputs)
    ensures IgnoredOutput(p, inp) != {}
            <==> (exists i: nat :: ResetAt(p, inp, i)) || exists key :: key in inp.added && p.ignored(key)
    ensures forall key :: key in IgnoredOutput(p, inp) ==> p.ignored(key)
  {
    if i: nat :| ResetAt(p, inp, i) {
      assert IsUpdated(p, inp.source, inp.lines[i]);
      assert inp.lines[i].key in IgnoredUpdates(p, inp.source, inp.lines);
    }
    if key :| key in inp.added && p.ignored(key) { assert key in IgnoredOutput(p, inp); }
    if key :| key in IgnoredUpdates(p, inp.source, inp.lines) {
      var item :| item in inp.lines && IsUpdated(p, inp.source, item) && item.key == key;
      var i :| 0 <= i < |inp.lines| && inp.lines[i] == item;
      assert ResetAt(p, inp, i);
    }
  }

  lemma {:induction false} IgnoredPass(p: Policy, source: Values, w: World, text: Text, changed: set<Text>)
    requires forall key :: key in changed ==> p.ignored(key)
    ensures PostCheck(p, source, w, text, changed) <==> w.encoded(text)
  {
    hide Translations, ParseFile, Normalize;
  }

  /** A run that selects nothing writes exactly when an ignored key does not show its source or was
      newly synchronised, and the text can be encoded; then it resets the ignored keys and no more. */
  lemma {:induction false} UnselectedEnds(p: Policy, inp: Inputs, w: World, store: Option<Store>)
    requires Sane(inp) && p.reviewChunk > 0 && JobsOf(p, inp) == []
    ensures var out, lines := RunFile(p, inp, w, store), seq(|inp.lines|, i requires 0 <= i < |inp.lines| =>
              Reset(p, inp.source, inp.lines[i]));
            var writes := (exists i: nat :: ResetAt(p, inp, i)) || exists key :: key in inp.added && p.ignored(key);
            && (out.Nothing? <==> !writes)
            && (out.PassedThrough? <==> writes && w.encoded(Reassemble(lines)))
            && (out.PassThroughRejected? <==> writes && !w.encoded(Reassemble(lines)))
            && (out.PassedThrough? ==> out.lines == lines)
  {
    PreparedIsReset(p, inp);
    OutputExactly(p, inp);
    hide JobsOf, Prepared, IgnoredOutput, PostCheck, BuiltLedger, Translations, Reassemble, Reset, ResetAt;
    var lines := seq(|inp.lines|, i requires 0 <= i < |inp.lines| => Reset(p, inp.source, inp.lines[i]));
    assert Prepared(p, inp) == lines;
    IgnoredPass(p, inp.source, w, Reassemble(lines), IgnoredOutput(p, inp));
  }
}
