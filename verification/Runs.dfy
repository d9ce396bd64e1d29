/** Any number of runs over one file, one after another: each starts on what the last one left on
    disk, once its keys were synchronised with the source file. */
module Runs {
  import opened Texts
  import opened PropertiesFile
  import opened PropertiesRoundTrip
  import opened PropertiesWriting
  import opened PropertiesChanges
  import opened Entries
  import opened KeySync
  import opened KeySyncFiles
  import opened Normalizing
  import opened Ledgers
  import opened Selection
  import opened Memory
  import opened Integration
  import opened Reviewing
  import opened FileRun
  import opened RunSafety
  import opened RunFiles

  /** The synchronised file on disk, and what a run that starts on it finds. */
  datatype Stage = Stage(text: Text, inp: Inputs)

  /** What the outside contributes to one run. */
  datatype Turn = Turn(w: World, store: Option<Store>)

  predicate Writes(out: Outcome) {
    out.Published? || out.PassedThrough?
  }

  /** The file after a run. */
  function TextAfter(text: Text, out: Outcome): Text {
    if Writes(out) then Reassemble(out.lines) else text
  }

  ghost predicate Starts(source: Text, stage: Stage) {
    Sane(stage.inp) && stage.inp.lines == ParseFile(stage.text) && stage.inp.source == Translations(ParseFile(source))
  }

  /** `b` is what a run on `a` and the synchronisation after it leave to the next run, which may be
      told anything about added and changed keys. */
  ghost predicate Leads(p: Policy, source: Text, a: Stage, turn: Turn, b: Stage)
    requires p.reviewChunk > 0
  {
    && Starts(source, a) && Starts(source, b)
    && b.inp.ledger == RunFile(p, a.inp, turn.w, turn.store).ledger
    && b.text == SynchronizedText(TextAfter(a.text, RunFile(p, a.inp, turn.w, turn.store)), source)
  }

  /** What the run writes fits on its lines, and what the synchronisation adds to it does. */
  ghost predicate Fits(source: Text, a: Stage, out: Outcome) {
    && (Writes(out) ==> WritesBack(a.text, out.lines))
    && SyncFits(TextAfter(a.text, out), source)
  }

  /** A sequence of runs: `turns[i]` leads from `stages[i]` to `stages[i + 1]`, and what is written fits. */
  ghost predicate History(p: Policy, source: Text, stages: seq<Stage>, turns: seq<Turn>)
    requires p.reviewChunk > 0
  {
    && |stages| == |turns| + 1
    && forall i :: 0 <= i < |turns| ==>
         && Leads(p, source, stages[i], turns[i], stages[i + 1])
         && Fits(source, stages[i], RunFile(p, stages[i].inp, turns[i].w, turns[i].store))
  }

  /** The key has a value of its own on disk, that the policy could not mistake for an accepted one. */
  ghost predicate HasOwnValue(p: Policy, source: Values, lines: seq<Item>, key: Text) {
    && key != [] && !p.ignored(key) && key in source && !(key in p.accepted && p.accepted[key] == source[key])
    && NonBlank(source[key]) && Localized(source, Translations(lines), key)
  }

  // ------------------------------------------------------------------ what is written

  /** How a run that writes may end: with a publication, or with ignored keys set to their sources. */
  ghost predicate EndsWriting(p: Policy, inp: Inputs, pub: Publication, out: Outcome) {
    || (Publishes(p, inp, pub) && out == OutcomeOf(p, inp, pub))
    || (out.PassedThrough? && out.lines == OverrideAll(inp.lines, ForcedValues(p, inp.source)))
  }

  lemma {:induction false} RunEndsWriting(p: Policy, inp: Inputs, w: World, store: Option<Store>)
        returns (pub: Publication)
    requires Sane(inp) && p.reviewChunk > 0 && Writes(RunFile(p, inp, w, store))
    ensures EndsWriting(p, inp, pub, RunFile(p, inp, w, store))
  {
    hide JobsOf, DraftOf, OverrideAll, ForcedValues, ValidValues, InvalidKeys, BlockedKeys, ChangedValues, KeysOf,
      Translations,
      Publishes, OutcomeOf, PostCheck, IgnoredOutput, BuiltLedger, MarkedFailed;
    if RunFile(p, inp, w, store).Published? {
      pub := RunPublishes(p, inp, w, store);
    } else {
      pub := Publication({}, [], map[], {});
    }
  }

  lemma {:induction false} WrittenChanges(p: Policy, inp: Inputs, pub: Publication, out: Outcome)
    requires EndsWriting(p, inp, pub, out)
    ensures Writes(out) && Changes(inp.lines, out.lines)
  {
    hide Publishes, LinesOf, ForcedValues;
    if out.Published? { PublishedChanges(p, inp, pub); }
  }

  /** The file that a run leaves shows exactly the lines it wrote, if and only if they fit. */
  lemma {:induction false} WrittenFileReadsBack(p: Policy, inp: Inputs, pub: Publication, out: Outcome, text: Text)
    requires EndsWriting(p, inp, pub, out) && inp.lines == ParseFile(text)
    ensures Writes(out) && (Views(ParseFile(TextAfter(text, out))) == WrittenViews(out.lines)
            <==> WritesBack(text, out.lines))
    ensures WritesBack(text, out.lines) ==> Reread(out.lines, ParseFile(TextAfter(text, out)))
  {
    hide EndsWriting, WritesBack, Views, WrittenViews, ParseFile, Changes, Reread, Reassemble;
    WrittenChanges(p, inp, pub, out);
    ChangedFileReadsBack(text, out.lines);
    if WritesBack(text, out.lines) { ShownIsReread(out.lines, ParseFile(Reassemble(out.lines))); }
  }

  // -------------------------------------------------------------------- one run, all runs

  /** The written lines keep the key's own value, duplicates or not. */
  lemma {:induction false} WritingKeepsOwnValue(p: Policy, inp: Inputs, pub: Publication, out: Outcome, key: Text)
    requires EndsWriting(p, inp, pub, out) && HasOwnValue(p, inp.source, inp.lines, key)
    ensures Writes(out) && HasOwnValue(p, inp.source, out.lines, key)
  {
    hide Publishes, LinesOf, Normalize, NonBlank, Translations, OverrideAll, BuiltLedger;
    if out.Published? {
      NoSilentRegression(p, inp, pub, key);
    } else {
      OverrideAllTranslations(inp.lines, ForcedValues(p, inp.source), key);
    }
  }

  lemma {:induction false} RereadKeepsOwnValue(p: Policy, source: Values, lines: seq<Item>, again: seq<Item>, key: Text)
    requires Reread(lines, again) && HasOwnValue(p, source, lines, key)
    ensures HasOwnValue(p, source, again, key)
  {
    hide Normalize, NonBlank, Translations, EscapeNewlines, Reread;
    RereadTranslations(lines, again, key);
    NormalizeSurvivesWriting(Translations(lines)[key]);
    WritingKeepsText(Translations(lines)[key]);
  }

  /** Synchronising the keys of the file keeps it too. */
  lemma {:induction false} SyncKeepsOwnValue(p: Policy, text: Text, source: Text, key: Text)
    requires SyncFits(text, source) && HasOwnValue(p, Translations(ParseFile(source)), ParseFile(text), key)
    ensures HasOwnValue(p, Translations(ParseFile(source)), ParseFile(SynchronizedText(text, source)), key)
  {
    hide ParseFile, Translations, SyncFits, SynchronizedText, Synchronized, Reread, Normalize, NonBlank;
    var t, s := ParseFile(text), ParseFile(source);
    SyncKeepsTranslation(t, s, key);
    SynchronizedTextRereads(text, source);
    assert HasOwnValue(p, Translations(s), Synchronized(t, s), key);
    RereadKeepsOwnValue(p, Translations(s), Synchronized(t, s), ParseFile(SynchronizedText(text, source)), key);
  }

  lemma {:induction false} RunKeepsOwnValue(p: Policy, a: Stage, turn: Turn, key: Text)
    requires p.reviewChunk > 0 && Sane(a.inp) && a.inp.lines == ParseFile(a.text)
    requires HasOwnValue(p, a.inp.source, a.inp.lines, key)
    requires var out := RunFile(p, a.inp, turn.w, turn.store); Writes(out) ==> WritesBack(a.text, out.lines)
    ensures HasOwnValue(p, a.inp.source, ParseFile(TextAfter(a.text, RunFile(p, a.inp, turn.w, turn.store))), key)
  {
    hide RunFile, EndsWriting, HasOwnValue, Reread, ParseFile, WritesBack, Reassemble, Sane;
    var out := RunFile(p, a.inp, turn.w, turn.store);
    if Writes(out) {
      var pub := RunEndsWriting(p, a.inp, turn.w, turn.store);
      WritingKeepsOwnValue(p, a.inp, pub, out, key);
      WrittenFileReadsBack(p, a.inp, pub, out, a.text);
      RereadKeepsOwnValue(p, a.inp.source, out.lines, ParseFile(TextAfter(a.text, out)), key);
    }
  }

  /** Over every sequence of runs on a file with an unchanged source, each after a synchronisation of
      its keys, whatever any model, review, memory or git state does on the way, as long as what is
      written fits on its lines: a value translated on disk never turns into its source. */
  lemma {:induction false} TranslationsSurviveAllRuns(p: Policy, source: Text, stages: seq<Stage>, turns: seq<Turn>,
        n: nat, key: Text)
    requires p.reviewChunk > 0 && History(p, source, stages, turns) && n < |stages|
    requires HasOwnValue(p, Translations(ParseFile(source)), ParseFile(stages[0].text), key)
    ensures HasOwnValue(p, Translations(ParseFile(source)), ParseFile(stages[n].text), key)
  {
    hide HasOwnValue, RunFile, SyncFits, WritesBack, SynchronizedText, TextAfter, ParseFile, Translations, Sane;
    if n > 0 {
      TranslationsSurviveAllRuns(p, source, stages, turns, n - 1, key);
      var a, turn := stages[n - 1], turns[n - 1];
      assert Leads(p, source, a, turn, stages[n]) && Fits(source, a, RunFile(p, a.inp, turn.w, turn.store));
      RunKeepsOwnValue(p, a, turn, key);
      SyncKeepsOwnValue(p, TextAfter(a.text, RunFile(p, a.inp, turn.w, turn.store)), source, key);
    }
  }
}
