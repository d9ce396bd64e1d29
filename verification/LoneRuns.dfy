/** Runs that translate a single line, step by step. */
module LoneRuns {
  import opened Texts
  import opened PropertiesFile
  import opened Entries
  import opened Normalizing
  import opened Ledgers
  import opened Selection
  import opened Memory
  import opened Assembly
  import opened Integration
  import opened Reviewing
  import opened FileRun

  /** Nothing is ignored, accepted or redone, and every check of a value passes. */
  ghost predicate Lenient(p: Policy) {
    && p.accepted == map[] && !p.retranslateIdentical && p.reviewChunk > 0
    && (forall k :: !p.ignored(k)) && (forall s, t :: p.escape(s, t) == t) && (forall t :: p.controlFree(t))
    && (forall s, t :: p.glossaryKept(s, t)) && (forall s, t :: p.placeholdersKept(s, t))
  }

  /** What is selected when neither git nor synchronization reports anything. */
  lemma {:induction false} QuietContext(p: Policy, inp: Inputs)
    requires Lenient(p) && inp.added == {} && inp.changed == {}
    ensures Prepared(p, inp) == inp.lines && ContextOf(p, inp) == Context(p, inp.source, {}, inp.ledger, {})
  {
    hide Translations, PassesFilter;
    assert ForcedValues(p, inp.source) == map[];
    assert OverrideAll(inp.lines, map[]) == inp.lines;
  }

  /** The entry of line `i` needs translation, and no other line and no other key does. */
  ghost predicate PicksOnly(c: Context, lines: seq<Item>, i: nat) {
    && i < |lines| && (forall j :: 0 <= j < |lines| ==> (Picks(c, lines[j]) <==> j == i))
    && (forall k :: k in c.source ==> HasKey(lines, k))
  }

  lemma {:induction false} OnlyJob(c: Context, lines: seq<Item>, order: seq<Text>, i: nat)
    requires PicksOnly(c, lines, i) && Orders(order, c.source)
    ensures lines[i].Entry? && lines[i].key in c.source
    ensures Selected(c, lines, order) == [Job(c.source[lines[i].key], i, lines[i].key)]
  {
    PickedEntry(c, lines[i]);
    hide Picks, HasKey;
    OnlyLineJob(c, lines, i, |lines|);
    NoNewJob(c, lines, order, |order|);
  }

  lemma {:induction false} OnlyLineJob(c: Context, lines: seq<Item>, i: nat, n: nat)
    requires PicksOnly(c, lines, i) && n <= |lines| && lines[i].Entry? && lines[i].key in c.source
    ensures ExistingJobs(c, lines, n) == if n > i then [Job(c.source[lines[i].key], i, lines[i].key)] else []
  {
    hide Picks, HasKey;
    if n > 0 { OnlyLineJob(c, lines, i, n - 1); }
  }

  lemma {:induction false} NoNewJob(c: Context, lines: seq<Item>, order: seq<Text>, n: nat)
    requires (forall k :: k in c.source ==> HasKey(lines, k)) && (forall k :: k in order ==> k in c.source)
             && n <= |order|
    ensures NewJobs(c, lines, order, n) == []
  {
    hide HasKey;
    if n > 0 {
      NoNewJob(c, lines, order, n - 1);
      assert order[n - 1] in order;
    }
  }

  // --------------------------------------------------------- translated and reviewed

  /** The key of line `i` is the only one to translate, has no other entry and no translation to fall back on. */
  ghost predicate LoneJob(p: Policy, inp: Inputs, i: nat, key: Text) {
    && Sane(inp) && key in inp.source && Prepared(p, inp) == inp.lines
    && JobsOf(p, inp) == [Job(inp.source[key], i, key)]
    && i < |inp.lines| && (forall j :: 0 <= j < |inp.lines| ==>
                                         (inp.lines[j].Entry? && inp.lines[j].key == key <==> j == i))
    && EntryOf(inp.ledger, key).sourceHash != Some(p.HashOf(inp.source[key]))
  }

  function LineWith(lines: seq<Item>, i: nat, value: Text): seq<Item>
    requires i < |lines| && lines[i].Entry?
  {
    lines[i := lines[i].(value := value)]
  }

  /** Either the model fails, or it answers something and the review corrects it to `answer`. */
  ghost predicate Replies(w: World, key: Text, answer: Option<Text>) {
    match answer
    case None => w.completed == []
    case Some(value) =>
      && |w.completed| == 1 && w.completed[0].position == 0 && w.completed[0].ok
      && w.reviews(0) == Corrections(map[key := value])
  }

  function FailedOf(key: Text, answer: Option<Text>): set<Text> {
    if answer.None? then {key} else {}
  }

  /** The line of the draft: the answer of the review, or the source when the model failed. */
  lemma {:induction false} LoneDraft(p: Policy, inp: Inputs, w: World, i: nat, key: Text, answer: Option<Text>)
    requires Lenient(p) && LoneJob(p, inp, i, key) && Replies(w, key, answer)
    ensures DraftOf(p, inp, w, None, [Job(inp.source[key], i, key)])
            == Draft(LineWith(inp.lines, i, if answer.Some? then answer.value else inp.source[key]),
                FailedOf(key, answer))
  {
    var jobs := [Job(inp.source[key], i, key)];
    var first := if answer.Some? then w.completed[0].value else inp.source[key];
    LoneAnswer(p, BackingOf(inp), w, jobs, answer);
    assert Integrated(p, inp.source, inp.lines, jobs, [first], 0) == inp.lines;
    assert Integrated(p, inp.source, inp.lines, jobs, [first], 1) == LineWith(inp.lines, i, first);
    LoneReviewed(p, inp.source, w, jobs, LineWith(inp.lines, i, first), i, answer);
    hide Normalize, NonBlank, Translations, Integrated, FailedKeys, AnswerValues, ResultsOf, ReviewedDraft, JobsOf,
      BackingOf;
    if answer.Some? {
      assert LineWith(LineWith(inp.lines, i, first), i, answer.value) == LineWith(inp.lines, i, answer.value);
    }
  }

  lemma {:induction false} LoneAnswer(p: Policy, b: Backing, w: World, jobs: seq<Job>, answer: Option<Text>)
    requires |jobs| == 1 && jobs[0].key in b.source && Replies(w, jobs[0].key, answer)
    requires EntryOf(b.ledger, jobs[0].key).sourceHash != Some(p.HashOf(b.source[jobs[0].key]))
    ensures var results := ResultsOf(p, w, None, jobs);
            && AnswerValues(p, jobs, b, results)
               == [if answer.Some? then w.completed[0].value else b.source[jobs[0].key]]
            && FailedKeys(p, jobs, b, results) == FailedOf(jobs[0].key, answer)
  {
    hide Normalize, NonBlank;
    assert CachedResults(p, Recall(None, w.provenance), jobs, 0) == [];
    var results := ResultsOf(p, w, None, jobs);
    assert results == w.completed;
    assert FindPosition(results, 0) == if answer.Some? then Some(results[0]) else None;
    assert VerifiedExisting(p, jobs[0].key, b.source, b.existing, b.ledger) == None;
    var last := Answer(p, jobs, b, results, 0);
    assert last == if answer.Some? then results[0] else Result(0, b.source[jobs[0].key], false);
    hide Answer, ResultsOf, VerifiedExisting;
    assert FailedKeys(p, jobs, b, results) == FailedOf(jobs[0].key, answer);
  }

  lemma {:induction false} LoneReviewed(p: Policy, source: Values, w: World, jobs: seq<Job>, lines: seq<Item>, i: nat,
        answer: Option<Text>)
    requires Lenient(p) && |jobs| == 1 && Replies(w, jobs[0].key, answer)
    requires i < |lines| && (forall j :: 0 <= j < |lines| ==>
                                           (lines[j].Entry? && lines[j].key == jobs[0].key <==> j == i))
    ensures ReviewedDraft(p, source, w, jobs, lines, FailedOf(jobs[0].key, answer))
            == Draft(if answer.Some? then LineWith(lines, i, answer.value) else lines, FailedOf(jobs[0].key, answer))
  {
    var key, failed, draft := jobs[0].key, FailedOf(jobs[0].key, answer), w.reread(lines);
    var keys := if answer.Some? then [key] else [];
    assert ToReview(jobs, failed, 0) == [] && ToReview(jobs, failed, 1) == keys;
    if answer.Some? {
      ReviewedAlone(p, source, draft, w.reviews, key, answer.value);
      LoneOverride(lines, i, key, answer.value);
    } else {
      assert Chunks([], p.reviewChunk) == [];
      assert OverrideAll(lines, map[]) == lines;
    }
  }

  lemma {:induction false} ReviewedAlone(p: Policy, source: Values, draft: Values, reviews: nat -> ChunkAnswer,
        key: Text, answer: Text)
    requires Lenient(p) && reviews(0) == Corrections(map[key := answer])
    ensures Chunks([key], p.reviewChunk) == [[key]] && ReviewFailures([[key]], reviews, 1) == {}
    ensures EscapedValues(p, source, Corrected(p, source, draft, [[key]], reviews, 1)) == map[key := answer]
  {
    assert ReviewedValue(p, source, draft, reviews(0), key) == answer;
    assert ChunkValues(p, source, draft, [key], reviews(0)) == map[key := answer];
    assert Corrected(p, source, draft, [[key]], reviews, 0) == map[];
    assert ReviewFailures([[key]], reviews, 0) == {} && ChunkFailures([key], reviews(0)) == {};
  }

  lemma {:induction false} LoneOverride(lines: seq<Item>, i: nat, key: Text, value: Text)
    requires i < |lines| && (forall j :: 0 <= j < |lines| ==> (lines[j].Entry? && lines[j].key == key <==> j == i))
    ensures OverrideAll(lines, map[key := value]) == LineWith(lines, i, value)
    ensures key in Translations(LineWith(lines, i, value)) && Translations(LineWith(lines, i, value))[key] == value
  {
    hide Translations;
    TranslationOf(LineWith(lines, i, value), i);
  }

  // ---------------------------------------------------------------------- published

  /** A lone line with a name is published with the answer of the review. */
  lemma {:induction false} LoneRun(p: Policy, inp: Inputs, w: World, i: nat, key: Text, answer: Text)
    requires Lenient(p) && LoneJob(p, inp, i, key) && Replies(w, key, Some(answer)) && (forall text :: w.encoded(text))
    requires key != [] && NonBlank(inp.source[key]) && NonBlank(answer) && !Same(inp.source[key], answer)
    ensures var out := RunFile(p, inp, w, None);
            out.Published? && out.lines == LineWith(inp.lines, i, answer) && out.failed == {}
  {
    hide Normalize, NonBlank, Translations, DraftOf, Concluded, JobsOf, Lenient, LineWith, Same, Judged, ChangedValues,
      OverrideAll;
    var jobs, lines := [Job(inp.source[key], i, key)], LineWith(inp.lines, i, answer);
    LoneDraft(p, inp, w, i, key, Some(answer));
    LoneVerdict(p, inp, jobs, lines, i, key, answer);
    LonePublished(p, inp, w, jobs, lines, key, answer);
  }

  lemma {:induction false} LoneVerdict(p: Policy, inp: Inputs, jobs: seq<Job>, lines: seq<Item>, i: nat, key: Text,
        answer: Text)
    requires Lenient(p) && LoneJob(p, inp, i, key) && |jobs| == 1 && jobs[0].key == key
             && lines == LineWith(inp.lines, i, answer)
    requires key != [] && NonBlank(answer) && !Same(inp.source[key], answer)
    ensures ChangedValues(jobs, lines) == map[key := answer] && OverrideAll(lines, map[key := answer]) == lines
    ensures Judged(p, inp.source, Translations(inp.lines), inp.ledger, KeysOf(jobs), key, answer)
            == Verdict(answer, false)
    ensures p.controlFree(answer) && forall k, source, final, changed :: KeyPasses(p, changed, k, source, final)
  {
    hide Normalize, NonBlank, Translations, VerifiedExisting, JobsOf;
    assert jobs[0] in jobs && KeysOf(jobs) == {key};
    LoneOverride(inp.lines, i, key, answer);
    LoneOverride(lines, i, key, answer);
    assert LineWith(lines, i, answer) == lines;
  }

  lemma {:induction false} LonePublished(p: Policy, inp: Inputs, w: World, jobs: seq<Job>, lines: seq<Item>, key: Text,
        answer: Text)
    requires ChangedValues(jobs, lines) == map[key := answer] && OverrideAll(lines, map[key := answer]) == lines
    requires Judged(p, inp.source, Translations(inp.lines), inp.ledger, KeysOf(jobs), key, answer)
             == Verdict(answer, false)
    requires (forall text :: w.encoded(text)) && forall k, source, final,
             changed :: KeyPasses(p, changed, k, source, final)
    ensures var out := Concluded(p, inp, w, jobs, Draft(lines, {}));
            out.Published? && out.lines == lines && out.failed == {}
  {
    hide Judged, OverrideAll, ChangedValues, Translations, KeysOf, IsBlocked, KeyPasses, ParseFile, Reassemble;
    var existing, final := Translations(inp.lines), map[key := answer];
    assert ValidValues(p, inp.source, existing, inp.ledger, KeysOf(jobs), final) == final;
    assert InvalidKeys(p, inp.source, existing, inp.ledger, KeysOf(jobs), final) == {};
    assert BlockedKeys(p, inp, final, {}) == {};
    assert PostCheck(p, inp.source, w, Reassemble(lines), KeysOf(jobs));
  }

  /** A lone line without a name is published with its source when the model fails. */
  lemma {:induction false} NamelessRun(p: Policy, inp: Inputs, w: World, i: nat)
    requires Lenient(p) && LoneJob(p, inp, i, []) && Replies(w, [], None) && (forall text :: w.encoded(text))
    requires NonBlank(inp.source[[]])
    ensures var out := RunFile(p, inp, w, None);
            out.Published? && out.lines == LineWith(inp.lines, i, inp.source[[]]) && out.failed == {[]}
  {
    hide Normalize, NonBlank, Translations, DraftOf, JobsOf, LineWith, Judged, ParseFile, Reassemble;
    var jobs, lines := [Job(inp.source[[]], i, [])], LineWith(inp.lines, i, inp.source[[]]);
    LoneDraft(p, inp, w, i, [], None);
    assert jobs[0] in jobs && KeysOf(jobs) == {[]};
    assert ChangedValues(jobs, lines) == map[];
    MarkKeepsText(inp.source[[]]);
    assert OverrideAll(lines, map[]) == lines;
    assert PostCheck(p, inp.source, w, Reassemble(lines), KeysOf(jobs));
  }
}
