/** One translation file through one run: select, translate, review, validate, publish or withhold. */
module FileRun {
  import opened Texts
  import opened PropertiesFile
  import opened Entries
  import opened Normalizing
  import opened Ledgers
  import opened Selection
  import opened Memory
  import opened Assembly
  import opened Integration
  import opened Reviewing

  /** What a run finds: the target file, the source values and their keys in sorted order, the
      ledger of the file, the keys synchronization added, and the keys git reports as changed. */
  datatype Inputs = Inputs(
    lines: seq<Item>,
    source: Values,
    order: seq<Text>,
    ledger: Ledger,
    added: set<Text>,
    changed: set<Text>)

  /** What the outside answers: provenance of memory entries, the accepted keys in some order, the
      task results in order of completion, the review of each chunk, what reading the written draft
      back gives, and whether a text passes the encoding checks. */
  datatype World = World(
    provenance: Text -> Provenance,
    acceptedOrder: seq<Text>,
    completed: seq<Result>,
    reviews: nat -> ChunkAnswer,
    reread: seq<Item> -> Values,
    encoded: Text -> bool)

  /** How a run of one file ends, with the ledger it leaves. */
  datatype Outcome =
    | Nothing(ledger: Ledger)
    | PassedThrough(lines: seq<Item>, ledger: Ledger)
    | PassThroughRejected(ledger: Ledger)
    | Withheld(ledger: Ledger)
    | Rejected(ledger: Ledger)
    | Published(lines: seq<Item>, ledger: Ledger, failed: set<Text>, valid: Values)

  // ---------------------------------------------------------------------- selection

  function Prepared(p: Policy, inp: Inputs): seq<Item> {
    IgnoredApplied(p, inp.source, inp.lines)
  }

  function AcceptedOf(p: Policy, inp: Inputs): set<Text> {
    AcceptedKeys(p, inp.source, Translations(Prepared(p, inp)), inp.ledger)
  }

  function Filtered(p: Policy, inp: Inputs): set<Text> {
    set k | k in inp.changed - AcceptedOf(p, inp)
        && PassesFilter(p, inp.source, inp.ledger, Translations(Prepared(p, inp)), k)
  }

  function ContextOf(p: Policy, inp: Inputs): Context {
    Context(p, inp.source, inp.added + Filtered(p, inp), inp.ledger, AcceptedOf(p, inp))
  }

  ghost predicate Sane(inp: Inputs) {
    Orders(inp.order, inp.source)
  }

  ghost function JobsOf(p: Policy, inp: Inputs): seq<Job>
    requires Sane(inp)
  {
    Selected(ContextOf(p, inp), Prepared(p, inp), inp.order)
  }

  function BackingOf(inp: Inputs): Backing {
    Backing(inp.source, Translations(inp.lines), inp.ledger)
  }

  function IgnoredOutput(p: Policy, inp: Inputs): set<Text> {
    IgnoredUpdates(p, inp.source, inp.lines) + set k | k in inp.added && p.ignored(k)
  }

  // ------------------------------------------------------------------ translate, review

  /** The reviewed lines, and the keys that failed in translation or review. */
  datatype Draft = Draft(lines: seq<Item>, failed: set<Text>)

  function ToReview(jobs: seq<Job>, failed: set<Text>, n: nat): seq<Text>
    requires n <= |jobs|
  {
    if n == 0 then []
    else
      var before, key := ToReview(jobs, failed, n - 1), jobs[n - 1].key;
      if key in failed then before else before + [key]
  }

  function EscapedValues(p: Policy, source: Values, values: Values): Values {
    map k | k in values :: p.escape(Get(source, k), values[k])
  }

  function AnswerValues(p: Policy, jobs: seq<Job>, b: Backing, results: seq<Result>): seq<Text> {
    seq(|jobs|, i requires 0 <= i < |jobs| => Answer(p, jobs, b, results, i).value)
  }

  function ReviewedDraft(p: Policy, source: Values, w: World, jobs: seq<Job>, draft: seq<Item>,
        failed: set<Text>): Draft
    requires p.reviewChunk > 0
  {
    var chunks := Chunks(ToReview(jobs, failed, |jobs|), p.reviewChunk);
    var corrected := Corrected(p, source, w.reread(draft), chunks, w.reviews, |chunks|);
    Draft(OverrideAll(draft, EscapedValues(p, source, corrected)), failed + ReviewFailures(chunks, w.reviews, |chunks|))
  }

  function ResultsOf(p: Policy, w: World, store: Option<Store>, jobs: seq<Job>): seq<Result> {
    CachedResults(p, Recall(store, w.provenance), jobs, |jobs|) + w.completed
  }

  function DraftOf(p: Policy, inp: Inputs, w: World, store: Option<Store>, jobs: seq<Job>): Draft
    requires p.reviewChunk > 0
  {
    var b, results := BackingOf(inp), ResultsOf(p, w, store, jobs);
    var draft := Integrated(p, inp.source, Prepared(p, inp), jobs, AnswerValues(p, jobs, b, results), |jobs|);
    ReviewedDraft(p, inp.source, w, jobs, draft, FailedKeys(p, jobs, b, results))
  }

  // ------------------------------------------------------------------ validate, publish

  /** The dictionary without the empty key. */
  function Named(values: Values): Values {
    map k | k in values && k != [] :: values[k]
  }

  function ChangedValues(jobs: seq<Job>, lines: seq<Item>): Values {
    var final := Named(Translations(lines));
    map k | k in final && k in KeysOf(jobs) :: final[k]
  }

  predicate IsBlocked(p: Policy, inp: Inputs, valid: Values, key: Text) {
    && Localized(inp.source, Translations(inp.lines), key)
    && Same(Get(valid, key), Get(inp.source, key)) && !p.ignored(key)
  }

  /** Keys whose localized value a rejected candidate would replace by the source. */
  function BlockedKeys(p: Policy, inp: Inputs, valid: Values, failed: set<Text>): set<Text> {
    set k | k in failed && IsBlocked(p, inp, valid, k)
  }

  function MarkedFailed(ledger: Ledger, keys: set<Text>): Ledger {
    map k | k in ledger.Keys + keys :: if k in keys then EntryOf(ledger, k).(failed := true) else ledger[k]
  }

  /** What the final check asks of a key as the written file shows it: nothing of ignored keys and of
      keys this run did not touch, and no glossary of a value that equals its source. */
  predicate KeyPasses(p: Policy, changed: set<Text>, key: Text, source: Text, final: Text) {
    || p.ignored(key) || key !in changed
    || (p.placeholdersKept(source, final) && (Same(source, final) || p.glossaryKept(source, final)))
  }

  /** The final check of a text before it is written. */
  predicate PostCheck(p: Policy, source: Values, w: World, text: Text, changed: set<Text>) {
    var final := Translations(ParseFile(text));
    w.encoded(text) && forall k :: k in source && k in final ==> KeyPasses(p, changed, k, source[k], final[k])
  }

  /** `run_post_translation_validation` */
  method PostValidate(p: Policy, source: Values, w: World, text: Text, changed: set<Text>) returns (valid: bool)
    ensures valid == PostCheck(p, source, w, text, changed)
  {
    hide Normalize, Translations, ParseFile;
    valid := w.encoded(text);
    var _, final := ParsePropertiesFile(text);
    var todo := source.Keys * final.Keys;
    while todo != {}
      invariant todo <= source.Keys * final.Keys
      invariant valid <==> w.encoded(text)
                           && forall k :: k in source && k in final && k !in todo ==>
                                            KeyPasses(p, changed, k, source[k], final[k])
      decreases |todo|
    {
      var key :| key in todo;
      ghost var before := valid;
      if !p.ignored(key) {
        if !p.placeholdersKept(source[key], final[key]) {
          if key in changed {
            valid := false;
          }
        } else if !Same(source[key], final[key]) && !p.glossaryKept(source[key], final[key]) {
          if key in changed {
            valid := false;
          }
        }
      }
      assert valid <==> before && KeyPasses(p, changed, key, source[key], final[key]);
      todo := todo - {key};
    }
  }

  function Concluded(p: Policy, inp: Inputs, w: World, jobs: seq<Job>, draft: Draft): Outcome {
    var selected, existing := KeysOf(jobs), Translations(inp.lines);
    var final := ChangedValues(jobs, draft.lines);
    var valid := ValidValues(p, inp.source, existing, inp.ledger, selected, final);
    var failed := InvalidKeys(p, inp.source, existing, inp.ledger, selected, final) + draft.failed;
    if BlockedKeys(p, inp, valid, failed) != {} then Withheld(MarkedFailed(inp.ledger, selected))
    else
      var lines := OverrideAll(draft.lines, valid);
      if !PostCheck(p, inp.source, w, Reassemble(lines), selected) then Rejected(inp.ledger)
      else Published(lines, BuiltLedger(p, inp.source, Named(Translations(lines)), failed), failed, valid)
  }

  function Unselected(p: Policy, inp: Inputs, w: World): Outcome {
    var lines := Prepared(p, inp);
    var ledger := BuiltLedger(p, inp.source, Translations(lines), {});
    if IgnoredOutput(p, inp) == {} then Nothing(ledger)
    else if PostCheck(p, inp.source, w, Reassemble(lines), IgnoredOutput(p, inp)) then PassedThrough(lines, ledger)
    else PassThroughRejected(ledger)
  }

  /** The run of one file, given what the memory held when texts were looked up. */
  ghost function RunFile(p: Policy, inp: Inputs, w: World, store: Option<Store>): Outcome
    requires Sane(inp) && p.reviewChunk > 0
  {
    var jobs := JobsOf(p, inp);
    if jobs == [] then Unselected(p, inp, w)
    else Concluded(p, inp, w, jobs, DraftOf(p, inp, w, store, jobs))
  }

  // ------------------------------------------------------------------ memory updates

  /** A validated translation that may be reused: it did not fail, is not blank, and is no
      unaccepted echo of its source. */
  predicate Remembers(p: Policy, source: Values, valid: Values, failed: set<Text>, key: Text) {
    && key !in failed && key in source && key in valid && NonBlank(valid[key])
    && (Same(source[key], valid[key]) ==> p.Accepts(key, source[key], valid[key]))
  }

  function UpdateSteps(p: Policy, source: Values, valid: Values, jobs: seq<Job>, failed: set<Text>,
                       provenance: Text -> Provenance, n: nat): seq<Step>
    requires n <= |jobs|
  {
    if n == 0 then []
    else
      var before, key := UpdateSteps(p, source, valid, jobs, failed, provenance, n - 1), jobs[n - 1].key;
      if Remembers(p, source, valid, failed, key) then before + [Record(provenance(source[key]), valid[key])]
      else before
  }

  /** `update_translation_memory` */
  method UpdateTranslationMemory(p: Policy, memory: TranslationMemory, source: Values, valid: Values, jobs: seq<Job>,
                                 failed: set<Text>, provenance: Text -> Provenance)
    modifies memory
    ensures memory.entries == Run(old(memory.entries), UpdateSteps(p, source, valid, jobs, failed, provenance, |jobs|))
  {
    hide Normalize, NonBlank;
    for n := 0 to |jobs|
      invariant memory.entries == Run(old(memory.entries), UpdateSteps(p, source, valid, jobs, failed, provenance, n))
    {
      var key := jobs[n].key;
      if key !in failed && key in source && key in valid && NonBlank(valid[key])
         && !(Same(source[key], valid[key]) && !p.Accepts(key, source[key], valid[key]))
      {
        RunAppend(old(memory.entries), UpdateSteps(p, source, valid, jobs, failed, provenance, n),
                  Record(provenance(source[key]), valid[key]));
        memory.Record(provenance(source[key]), valid[key]);
      }
    }
  }

  function AcceptedSteps(source: Values, target: Values, order: seq<Text>, provenance: Text -> Provenance,
        n: nat): seq<Step>
    requires n <= |order| && forall k :: k in order ==> k in source && k in target
  {
    if n == 0 then []
    else AcceptedSteps(source, target, order, provenance, n - 1)
         + [Record(provenance(source[order[n - 1]]), target[order[n - 1]])]
  }

  /** The accepted keys are recorded before any text is looked up. */
  method RecordAccepted(memory: TranslationMemory, source: Values, target: Values, order: seq<Text>,
        provenance: Text -> Provenance)
    requires forall k :: k in order ==> k in source && k in target
    modifies memory
    ensures memory.entries == Run(old(memory.entries), AcceptedSteps(source, target, order, provenance, |order|))
  {
    for n := 0 to |order|
      invariant memory.entries == Run(old(memory.entries), AcceptedSteps(source, target, order, provenance, n))
    {
      RunAppend(old(memory.entries), AcceptedSteps(source, target, order, provenance, n),
                Record(provenance(source[order[n]]), target[order[n]]));
      memory.Record(provenance(source[order[n]]), target[order[n]]);
    }
  }

  lemma {:induction false} AcceptedHasTarget(p: Policy, source: Values, target: Values, ledger: Ledger, key: Text)
    requires key in AcceptedKeys(p, source, target, ledger)
    ensures key in source && key in target && target[key] == source[key]
  {
  }

  // ------------------------------------------------------------------ the whole run

  ghost predicate AcceptedInOrder(p: Policy, inp: Inputs, w: World) {
    forall k :: k in w.acceptedOrder <==> k in AcceptedOf(p, inp)
  }

  lemma {:induction false} AcceptedAreThere(p: Policy, inp: Inputs, w: World)
    requires AcceptedInOrder(p, inp, w)
    ensures forall k :: k in w.acceptedOrder ==> k in inp.source && k in Translations(Prepared(p, inp))
  {
    forall k | k in w.acceptedOrder ensures k in inp.source && k in Translations(Prepared(p, inp)) {
      AcceptedHasTarget(p, inp.source, Translations(Prepared(p, inp)), inp.ledger, k);
    }
  }

  /** The memory when texts are looked up. */
  ghost function StoreAtLookup(p: Policy, inp: Inputs, w: World, store: Store): Store
    requires AcceptedInOrder(p, inp, w)
  {
    AcceptedAreThere(p, inp, w);
    Run(store, AcceptedSteps(inp.source, Translations(Prepared(p, inp)), w.acceptedOrder, w.provenance,
        |w.acceptedOrder|))
  }

  /** The memory after the run: only a published file adds to it. */
  ghost function StoreAfter(p: Policy, inp: Inputs, w: World, store: Store, outcome: Outcome): Store
    requires AcceptedInOrder(p, inp, w) && Sane(inp)
  {
    var held := StoreAtLookup(p, inp, w, store);
    if outcome.Published? then
      var jobs := JobsOf(p, inp);
      Run(held, UpdateSteps(p, inp.source, outcome.valid, jobs, outcome.failed, w.provenance, |jobs|))
    else held
  }

  method ReviewDraft(p: Policy, source: Values, w: World, jobs: seq<Job>, draft: seq<Item>, failed: set<Text>)
      returns (reviewed: Draft)
    requires p.reviewChunk > 0
    ensures reviewed == ReviewedDraft(p, source, w, jobs, draft, failed)
  {
    hide Corrected, ReviewFailures, Chunks, Translations;
    var keys := [];
    for n := 0 to |jobs|
      invariant keys == ToReview(jobs, failed, n)
    {
      if jobs[n].key !in failed {
        keys := keys + [jobs[n].key];
      }
    }
    var chunks := Chunks(keys, p.reviewChunk);
    var corrected, missing := ApplyReviews(p, source, w.reread(draft), chunks, w.reviews);
    var lines := draft;
    ghost var values := EscapedValues(p, source, corrected);
    for i := 0 to |draft|
      invariant |lines| == |draft|
      invariant forall j :: 0 <= j < i ==> lines[j] == Override(draft[j], values)
      invariant forall j :: i <= j < |draft| ==> lines[j] == draft[j]
    {
      var line := draft[i];
      if line.Entry? && line.key in corrected {
        lines := lines[i := line.(value := p.escape(Get(source, line.key), corrected[line.key]))];
      }
    }
    assert lines == OverrideAll(draft, values);
    return Draft(lines, failed + missing);
  }

  /** `final_translations` of the keys that were translated. */
  method ChangedTranslations(jobs: seq<Job>, lines: seq<Item>) returns (final: Values)
    ensures final == ChangedValues(jobs, lines)
  {
    hide Translations;
    var all := map[];
    NoTranslations();
    for i := 0 to |lines|
      invariant forall k :: k in all <==> k in Named(Translations(lines[..i]))
      invariant forall k :: k in all ==> all[k] == Translations(lines[..i])[k]
    {
      TranslationsGrow(lines, i);
      if lines[i].Entry? && lines[i].key != [] {
        all := all[lines[i].key := lines[i].value];
      }
    }
    assert lines[..|lines|] == lines;
    final := map k | k in all && k in KeysOf(jobs) :: all[k];
  }

  lemma {:induction false} NoTranslations()
    ensures Translations([]) == map[]
  {
  }

  lemma {:induction false} TranslationsGrow(lines: seq<Item>, i: nat)
    requires i < |lines|
    ensures Translations(lines[..i + 1])
            == if lines[i].Entry? then Translations(lines[..i])[lines[i].key := lines[i].value]
               else Translations(lines[..i])
  {
    assert lines[..i + 1][..i] == lines[..i];
  }

  /** The ledger of a withheld file: old evidence kept, every selected key marked for retry. */
  method MarkForRetry(ledger: Ledger, jobs: seq<Job>) returns (retry: Ledger)
    ensures retry == MarkedFailed(ledger, KeysOf(jobs))
  {
    retry := ledger;
    for n := 0 to |jobs|
      invariant forall k :: k in retry <==> k in ledger || k in KeysOf(jobs[..n])
      invariant forall k :: k in retry ==>
                  retry[k] == if k in KeysOf(jobs[..n]) then EntryOf(ledger, k).(failed := true) else ledger[k]
    {
      var key := jobs[n].key;
      KeysGrow(jobs, n);
      retry := retry[key := EntryOf(retry, key).(failed := true)];
    }
    assert jobs[..|jobs|] == jobs;
  }

  lemma {:induction false} KeysGrow(jobs: seq<Job>, n: nat)
    requires n < |jobs|
    ensures KeysOf(jobs[..n + 1]) == KeysOf(jobs[..n]) + {jobs[n].key}
  {
    assert jobs[..n + 1] == jobs[..n] + [jobs[n]];
  }

  /** Validation, the check for blocked regressions, and publication. */
  method Conclude(p: Policy, inp: Inputs, w: World, jobs: seq<Job>, draft: Draft) returns (outcome: Outcome)
    ensures outcome == Concluded(p, inp, w, jobs, draft)
  {
    hide Translations, ValidValues, InvalidKeys, ChangedValues, BlockedKeys, BuiltLedger, MarkedFailed;
    var selected, existing := KeysOf(jobs), Translations(inp.lines);
    var final := ChangedTranslations(jobs, draft.lines);
    var valid, invalid := RunPerKeyValidation(p, inp.source, existing, inp.ledger, selected, final);
    var failed := invalid + draft.failed;
    if BlockedKeys(p, inp, valid, failed) != {} {
      var retry := MarkForRetry(inp.ledger, jobs);
      return Withheld(retry);
    }
    var lines := draft.lines;
    for i := 0 to |lines|
      invariant |lines| == |draft.lines|
      invariant forall j :: 0 <= j < i ==> lines[j] == Override(draft.lines[j], valid)
      invariant forall j :: i <= j < |lines| ==> lines[j] == draft.lines[j]
    {
      if lines[i].Entry? && lines[i].key in valid {
        lines := lines[i := lines[i].(value := valid[lines[i].key])];
      }
    }
    assert lines == OverrideAll(draft.lines, valid);
    var text := ReassembleFile(lines);
    var passes := PostValidate(p, inp.source, w, text, selected);
    if !passes {
      return Rejected(inp.ledger);
    }
    var ledger := BuildFileKeyLedger(p, inp.source, Named(Translations(lines)), failed);
    return Published(lines, ledger, failed, valid);
  }

  /** The body of the queue loop for one file. */
  method ProcessFile(p: Policy, inp: Inputs, w: World, memory: TranslationMemory?) returns (outcome: Outcome)
    requires Sane(inp) && p.reviewChunk > 0 && AcceptedInOrder(p, inp, w)
    requires var store := if memory == null then None else Some(StoreAtLookup(p, inp, w, memory.entries));
             Positioned(ResultsOf(p, w, store, JobsOf(p, inp)), |JobsOf(p, inp)|)
    modifies if memory == null then {} else {memory}
    ensures var store := if memory == null then None else Some(StoreAtLookup(p, inp, w, old(memory.entries)));
            outcome == RunFile(p, inp, w, store)
    ensures memory != null ==> memory.entries == StoreAfter(p, inp, w, old(memory.entries), outcome)
  {
    hide Translations, OverrideAll, Positioned, ResultsOf, Concluded, ReviewedDraft, Integrated, Run, IgnoredUpdates,
      Selected,
      AcceptedKeys, AcceptedSteps, UpdateSteps, PassesFilter, Orders, BuiltLedger;
    ghost var store := if memory == null then None else Some(StoreAtLookup(p, inp, w, memory.entries));
    var original := Translations(inp.lines);
    var lines, target, updated := ApplyIgnoredSourceValues(p, inp.source, inp.lines, original);
    var accepted := AcceptedKeys(p, inp.source, target, inp.ledger);
    if memory != null {
      AcceptedAreThere(p, inp, w);
      RecordAccepted(memory, inp.source, target, w.acceptedOrder, w.provenance);
    }
    var changed := FilterGitChangedKeysBySource(p, inp.changed - accepted, inp.source, inp.ledger, target);
    var c := Context(p, inp.source, inp.added + changed, inp.ledger, accepted);
    assert c == ContextOf(p, inp);
    var jobs := ExtractTextsToTranslate(c, lines, inp.order);
    if jobs == [] {
      var ledger := BuildFileKeyLedger(p, inp.source, target, {});
      var output := updated + set k | k in inp.added && p.ignored(k);
      if output == {} {
        return Nothing(ledger);
      }
      var text := ReassembleFile(lines);
      var passes := PostValidate(p, inp.source, w, text, output);
      return if passes then PassedThrough(lines, ledger) else PassThroughRejected(ledger);
    }
    var cached, _ := ApplyTranslationMemory(p, memory, w.provenance, jobs);
    assert cached + w.completed == ResultsOf(p, w, store, jobs) by { ResultsAre(p, w, store, jobs); }
    var translations, failed := AssembleResults(p, jobs, BackingOf(inp), cached, w.completed);
    assert translations == AnswerValues(p, jobs, BackingOf(inp), cached + w.completed);
    var integrated := IntegrateTranslations(p, inp.source, lines, jobs, translations);
    var draft := ReviewDraft(p, inp.source, w, jobs, integrated, failed);
    outcome := Conclude(p, inp, w, jobs, draft);
    if memory != null && outcome.Published? {
      UpdateTranslationMemory(p, memory, inp.source, outcome.valid, jobs, outcome.failed, w.provenance);
    }
  }

  lemma {:induction false} ResultsAre(p: Policy, w: World, store: Option<Store>, jobs: seq<Job>)
    ensures ResultsOf(p, w, store, jobs) == CachedResults(p, Recall(store, w.provenance), jobs, |jobs|) + w.completed
  {
  }
}
