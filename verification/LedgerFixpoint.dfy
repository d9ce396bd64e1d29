/** What the next run selects once a file was published: the ledger is a fixpoint. */
module LedgerFixpoint {
  import opened Texts
  import opened PropertiesFile
  import opened PropertiesRoundTrip
  import opened PropertiesChanges
  import opened Entries
  import opened Normalizing
  import opened Ledgers
  import opened Selection
  import opened Memory
  import opened Assembly
  import opened Integration
  import opened Reviewing
  import opened FileRun
  import opened RunSafety
  import opened RunSelection

  // ---------------------------------------------------------------- settled keys

  /** The key has an entry whenever it is to be translated, and the ledger holds the hashes of its
      source and of the value in `lines`, and whether it failed. */
  ghost predicate Settled(p: Policy, source: Values, lines: seq<Item>, ledger: Ledger, failed: set<Text>, key: Text) {
    key in source && !p.ignored(key) ==>
      && HasKey(lines, key) && key in Translations(lines)
      && EntryOf(ledger, key) == LedgerEntry(Some(p.HashOf(source[key])), Some(p.HashOf(Translations(lines)[key])),
         key in failed)
  }

  /** A value that looks untranslated: it equals the source where such values are redone, or it
      hashes like the source while the published value did not. */
  predicate Echoes(p: Policy, source: Text, published: Text, value: Text) {
    || (p.retranslateIdentical && Same(source, value))
    || (p.HashOf(value) == p.HashOf(source) && p.HashOf(published) != p.HashOf(source))
  }

  predicate DrawsAgain(p: Policy, source: Text, published: Text, value: Text) {
    (NonBlank(source) && !NonBlank(value)) || Echoes(p, source, published, value)
  }

  /** Line `i` holds an entry of the key with a value that draws it again. */
  predicate DrawsAt(p: Policy, lines: seq<Item>, key: Text, source: Text, published: Text, i: nat) {
    i < |lines| && lines[i].Entry? && lines[i].key == key && DrawsAgain(p, source, published, lines[i].value)
  }

  lemma {:induction false} SettledNeeds(c: Context, key: Text, published: Text, failed: bool, value: Text)
    requires key in c.source
    requires EntryOf(c.ledger, key) == LedgerEntry(Some(c.p.HashOf(c.source[key])), Some(c.p.HashOf(published)), failed)
    ensures Needs(c, key, value) <==> key in c.newly || failed || DrawsAgain(c.p, c.source[key], published, value)
  {
    hide Normalize, NonBlank;
  }

  lemma {:induction false} FilterOnSettled(p: Policy, next: Inputs, key: Text)
    requires key in next.source && key in Translations(Prepared(p, next))
    requires EntryOf(next.ledger, key).sourceHash == Some(p.HashOf(next.source[key]))
    ensures key in Filtered(p, next)
            <==> key in next.changed && key !in AcceptedOf(p, next)
                 && Same(next.source[key], Translations(Prepared(p, next))[key])
  {
    hide Normalize, AcceptedOf, Translations, Prepared;
  }

  lemma {:induction false} AcceptedIsNotFailed(p: Policy, next: Inputs, key: Text)
    requires EntryOf(next.ledger, key).failed
    ensures key !in AcceptedOf(p, next)
  {
    hide Translations, Prepared;
  }

  /** Selecting again with a settled key, on whatever lines the file then holds: the key is picked
      exactly when the file lacks it, or it is not accepted and it was newly synchronised, or failed, or
      git reports it with a value equal to its source, or some line of it is blank or looks
      untranslated; for every hash function. */
  lemma {:induction false} SettledSelection(p: Policy, lines: seq<Item>, failed: set<Text>, next: Inputs, key: Text)
    requires Sane(next) && key in next.source && !p.ignored(key)
    requires Settled(p, next.source, lines, next.ledger, failed, key)
    ensures key in Translations(lines) && (HasKey(next.lines, key) ==> key in Translations(next.lines))
    ensures key in KeysOf(JobsOf(p, next))
            <==> !HasKey(next.lines, key)
                 || (key !in AcceptedOf(p, next)
                     && (key in next.added || key in failed
                         || (key in next.changed && Same(next.source[key], Translations(next.lines)[key]))
                         || exists i: nat :: DrawsAt(p, next.lines, key, next.source[key], Translations(lines)[key],
                                             i)))
  {
    var again, c, published := Prepared(p, next), ContextOf(p, next), Translations(lines)[key];
    JobsAre(p, next);
    SelectedKeysExact(c, again, next.order, key);
    PreparedKeeps(p, next, key);
    if HasKey(next.lines, key) { FilterOnSettled(p, next, key); }
    var needed := key in next.added || key in Filtered(p, next) || key in failed;
    hide Settled, Prepared, JobsOf, Selected, Normalize, NonBlank, Translations, HasKey, KeysOf, AcceptedOf, Filtered,
      Needs, DrawsAgain, KeyPicked, EntryOf;
    PickedWhere(c, next.lines, again, key, published, key in failed);
    HasSomeEntry(next.lines, key);
  }

  lemma {:induction false} PickedWhere(c: Context, lines: seq<Item>, again: seq<Item>, key: Text, published: Text,
        failed: bool)
    requires key in c.source && !c.p.ignored(key) && |again| == |lines|
    requires EntryOf(c.ledger, key) == LedgerEntry(Some(c.p.HashOf(c.source[key])), Some(c.p.HashOf(published)), failed)
    requires forall i :: 0 <= i < |lines| ==>
               && (lines[i].Entry? && lines[i].key == key <==> again[i].Entry? && again[i].key == key)
               && (lines[i].Entry? && lines[i].key == key ==> again[i] == lines[i])
    ensures KeyPicked(c, again, key)
            <==> key !in c.accepted
                 && (exists i: nat :: EntryAt(lines, key, i))
                 && (key in c.newly || failed || exists i: nat :: DrawsAt(c.p, lines, key, c.source[key], published, i))
  {
    hide Normalize, NonBlank, DrawsAgain, Needs, EntryOf;
    forall i: nat
      ensures PicksLine(c, again, i) && again[i].key == key
              <==> EntryAt(lines, key, i) && key !in c.accepted
                   && (key in c.newly || failed || DrawsAt(c.p, lines, key, c.source[key], published, i))
    {
      if EntryAt(lines, key, i) { SettledNeeds(c, key, published, failed, lines[i].value); }
    }
  }

  // ------------------------------------------------------ keys the ledger does not hold

  /** Line `i` holds a blank entry of the key, or one that equals the source where such are redone. */
  predicate UnfilledAt(p: Policy, lines: seq<Item>, key: Text, source: Text, i: nat) {
    && EntryAt(lines, key, i)
    && ((NonBlank(source) && !NonBlank(lines[i].value)) || (p.retranslateIdentical && Same(source, lines[i].value)))
  }

  /** A key without a ledger entry, as the empty key after a publication, is selected exactly when the
      file lacks it, or it is not accepted and synchronisation or git reports it or a line of it is
      unfilled. */
  lemma {:induction false} UnknownSelection(p: Policy, next: Inputs, key: Text)
    requires Sane(next) && key in next.source && !p.ignored(key) && key !in next.ledger
    ensures key in KeysOf(JobsOf(p, next))
            <==> !HasKey(next.lines, key)
                 || (key !in AcceptedOf(p, next)
                     && (key in next.added || key in next.changed
                         || exists i: nat :: UnfilledAt(p, next.lines, key, next.source[key], i)))
  {
    var again, c := Prepared(p, next), ContextOf(p, next);
    JobsAre(p, next);
    SelectedKeysExact(c, again, next.order, key);
    PreparedKeeps(p, next, key);
    UnknownIsReported(p, next, key);
    hide Prepared, JobsOf, Selected, Normalize, NonBlank, Translations, KeysOf, AcceptedOf, Filtered, Needs, HasKey,
      EntryOf;
    HasSomeEntry(next.lines, key);
    forall i: nat
      ensures PicksLine(c, again, i) && again[i].key == key
              <==> EntryAt(next.lines, key, i) && key !in c.accepted
                   && (key in c.newly || UnfilledAt(p, next.lines, key, next.source[key], i))
    {
      if EntryAt(next.lines, key, i) { UnknownNeeds(c, key, next.lines[i].value); }
    }
  }

  lemma {:induction false} UnknownIsReported(p: Policy, next: Inputs, key: Text)
    requires key !in next.ledger
    ensures key in Filtered(p, next) <==> key in next.changed && key !in AcceptedOf(p, next)
  {
    hide Normalize, AcceptedOf, Translations, Prepared;
  }

  lemma {:induction false} UnknownNeeds(c: Context, key: Text, value: Text)
    requires key in c.source && key !in c.ledger
    ensures Needs(c, key, value)
            <==> key in c.newly || (NonBlank(c.source[key]) && !NonBlank(value))
                 || (c.p.retranslateIdentical && Same(c.source[key], value))
  {
    hide Normalize, NonBlank;
  }

  // ------------------------------------------------------------- runs leave settled keys

  /** Every translatable source key has an entry in the published file. */
  lemma {:induction false} PublishedIsComplete(p: Policy, inp: Inputs, pub: Publication, key: Text)
    requires Publishes(p, inp, pub) && key in inp.source && !p.ignored(key)
    ensures HasKey(LinesOf(pub), key)
  {
    JobsAre(p, inp);
    if key in pub.selected {
      hide JobsOf, Touches, HasKey, OverrideAll, KeysOf, Validates;
      OverrideAllKeepsKeys(pub.draft, pub.valid);
      SameKeysSameLast(pub.draft, LinesOf(pub), key);
    } else {
      SelectedKeysExact(ContextOf(p, inp), Prepared(p, inp), inp.order, key);
      OutsideKeysTouched(p, inp, pub);
      hide JobsOf, Touches, Prepared, HasKey, KeysOf, Selected, LinesOf, Validates;
      TouchesKeepsOthers(Prepared(p, inp), LinesOf(pub), pub.selected, key);
    }
  }

  lemma {:induction false} LedgerHolds(p: Policy, source: Values, values: Values, failed: set<Text>, key: Text)
    requires key in values
    ensures EntryOf(BuiltLedger(p, source, values, failed), key) == BuiltEntry(p, source, values, failed, key)
    ensures key != [] ==> EntryOf(BuiltLedger(p, source, Named(values), failed), key)
                          == BuiltEntry(p, source, values, failed, key)
  {
  }

  /** In a published file every key but the empty one is settled, duplicates or not. */
  lemma {:induction false} PublishedIsSettled(p: Policy, inp: Inputs, pub: Publication, key: Text)
    requires Publishes(p, inp, pub) && key != []
    ensures Settled(p, inp.source, LinesOf(pub), LedgerOf(p, inp, pub), pub.failed, key)
  {
    hide Publishes, LinesOf, Translations, Normalize, BuiltLedger, HasKey;
    if key in inp.source && !p.ignored(key) {
      PublishedIsComplete(p, inp, pub, key);
      TranslationsKeys(LinesOf(pub), key);
      LedgerHolds(p, inp.source, Translations(LinesOf(pub)), pub.failed, key);
    }
  }

  lemma {:induction false} NoneSelected(key: Text)
    ensures key !in KeysOf([])
  {
  }

  /** In a file that needed no translation every key is settled, the empty one included. */
  lemma {:induction false} UnselectedIsSettled(p: Policy, inp: Inputs, w: World, key: Text)
    requires Sane(inp) && JobsOf(p, inp) == []
    ensures Settled(p, inp.source, inp.lines, Unselected(p, inp, w).ledger, {}, key)
  {
    hide Translations, Normalize, BuiltLedger, HasKey, JobsOf, Selected, KeysOf, Prepared, PostCheck, KeyPicked,
      AcceptedOf, Filtered;
    JobsAre(p, inp);
    NoneSelected(key);
    SelectedKeysExact(ContextOf(p, inp), Prepared(p, inp), inp.order, key);
    if key in inp.source && !p.ignored(key) {
      PreparedKeeps(p, inp, key);
      LedgerHolds(p, inp.source, Translations(Prepared(p, inp)), {}, key);
    }
  }

  // ------------------------------------------------------------------- no blank lines

  /** All entries of a selected key are published with the same value. */
  lemma {:induction false} SelectedValueEverywhere(p: Policy, inp: Inputs, pub: Publication, key: Text, i: nat)
    requires Publishes(p, inp, pub) && key in pub.selected && key != [] && EntryAt(LinesOf(pub), key, i)
    ensures key in Translations(LinesOf(pub)) && LinesOf(pub)[i].value == Translations(LinesOf(pub))[key]
  {
    SelectedIsValidated(p, inp, pub, key);
    hide Publishes, Translations;
    assert LinesOf(pub)[i] == Override(pub.draft[i], pub.valid);
  }

  /** No published entry of a translatable key is blank where its source is not, unless the key was
      accepted as it stood. */
  lemma {:induction false} PublishedIsFilled(p: Policy, inp: Inputs, pub: Publication, key: Text, i: nat)
    requires Publishes(p, inp, pub) && EntryAt(LinesOf(pub), key, i)
    requires key != [] && key in inp.source && !p.ignored(key) && NonBlank(inp.source[key])
    ensures NonBlank(LinesOf(pub)[i].value) || (key !in pub.selected && key in AcceptedOf(p, inp))
  {
    hide Publishes, LinesOf, Translations, Judged, Normalize, NonBlank, AcceptedOf, HasKey;
    if key in pub.selected {
      SelectedValueEverywhere(p, inp, pub, key, i);
      SelectedIsValidated(p, inp, pub, key);
      VerdictIsSafe(p, inp.source, Translations(inp.lines), inp.ledger, pub.selected, key,
          Translations(pub.draft)[key]);
    } else if key !in AcceptedOf(p, inp) {
      PublishedLines(p, inp, pub, i);
      SelectedHere(p, inp, pub);
      UnselectedIsFilled(p, inp, key, i);
    }
  }

  lemma {:induction false} SelectedHere(p: Policy, inp: Inputs, pub: Publication)
    requires Publishes(p, inp, pub)
    ensures Sane(inp) && pub.selected == KeysOf(JobsOf(p, inp)) && pub.failed <= pub.selected
  {
    hide JobsOf, KeysOf;
  }

  lemma {:induction false} UnselectedIsFilled(p: Policy, inp: Inputs, key: Text, i: nat)
    requires Sane(inp) && key !in KeysOf(JobsOf(p, inp)) && key in inp.source && !p.ignored(key)
             && key !in AcceptedOf(p, inp)
    requires EntryAt(inp.lines, key, i) && NonBlank(inp.source[key])
    ensures NonBlank(inp.lines[i].value)
  {
    var c, lines := ContextOf(p, inp), Prepared(p, inp);
    JobsAre(p, inp);
    SelectedKeysExact(c, lines, inp.order, key);
    PreparedKeeps(p, inp, key);
    hide Prepared, JobsOf, KeysOf, Translations, Normalize, NonBlank, HasKey, Selected, PassesFilter, AcceptedOf;
    assert lines[i] == inp.lines[i];
    assert !PicksLine(c, lines, i);
  }

  // ----------------------------------------------------------------------- the next run

  /** Values as parsing leaves them: no newline. */
  ghost predicate SingleLines(lines: seq<Item>) {
    forall i :: 0 <= i < |lines| && lines[i].Entry? ==> OneLine(lines[i].value)
  }

  /** Line `i` holds an entry of the key that looks untranslated. */
  predicate EchoesAt(p: Policy, lines: seq<Item>, key: Text, source: Text, i: nat) {
    EntryAt(lines, key, i) && key in Translations(lines) && Echoes(p, source, Translations(lines)[key], lines[i].value)
  }

  /** Why a settled key is selected again. */
  ghost predicate SelectedAgain(p: Policy, next: Inputs, failed: set<Text>, key: Text) {
    && key in next.source && !p.ignored(key)
    && (key in failed
        || (key !in AcceptedOf(p, next)
            && (key in next.added
                || (key in next.changed && key in Translations(next.lines)
                    && Same(next.source[key], Translations(next.lines)[key]))
                || exists i: nat :: EchoesAt(p, next.lines, key, next.source[key], i))))
  }

  /** A run that starts where a publication ended: its lines read back, its ledger, the same source. */
  ghost predicate Continues(p: Policy, inp: Inputs, pub: Publication, next: Inputs) {
    && Publishes(p, inp, pub) && SingleLines(inp.lines) && Reread(LinesOf(pub), next.lines)
    && next.ledger == LedgerOf(p, inp, pub) && next.source == inp.source && next.order == inp.order
  }

  /** A key that was accepted and left alone is accepted again. */
  lemma {:induction false} AcceptedAgain(p: Policy, inp: Inputs, pub: Publication, next: Inputs, key: Text)
    requires Continues(p, inp, pub, next) && key != [] && key in inp.source && !p.ignored(key)
    requires key !in pub.selected && key in AcceptedOf(p, inp)
    ensures key in AcceptedOf(p, next)
  {
    hide Publishes, LinesOf, Translations, Normalize, HasKey, Reread, BuiltLedger, Prepared;
    var out := LinesOf(pub);
    UnselectedKeepsValue(p, inp, pub, key);
    PublishedIsSettled(p, inp, pub, key);
    SelectedHere(p, inp, pub);
    PreparedKeeps(p, inp, key);
    PreparedKeeps(p, next, key);
    RereadTranslations(out, next.lines, key);
    TranslationsKeys(inp.lines, key);
    PropertiesRoundTrip.NothingToEscape(Translations(inp.lines)[key]);
  }

  lemma {:induction false} DrawsOnlyByEcho(p: Policy, source: Text, published: Text, value: Text, read: Text,
        last: Text)
    requires read == EscapeNewlines(value) && last == EscapeNewlines(published)
    requires NonBlank(source) ==> NonBlank(value)
    ensures DrawsAgain(p, source, published, read) <==> Echoes(p, source, last, read)
  {
    NormalizeSurvivesWriting(published);
    hide Normalize, NonBlank, EscapeNewlines;
    if NonBlank(value) { WritingKeepsText(value); }
  }

  /** The next run over a published file, read back: of the keys with a name it selects exactly those
      that failed, and of those not accepted the ones synchronisation reports, the ones git reports with
      a value equal to the source, and the ones with an earlier entry that looks untranslated. */
  lemma {:induction false} NextRunSelectsFailedKeys(p: Policy, inp: Inputs, pub: Publication, next: Inputs, key: Text)
    requires Continues(p, inp, pub, next) && Sane(next) && key != []
    ensures key in KeysOf(JobsOf(p, next)) <==> SelectedAgain(p, next, pub.failed, key)
  {
    hide JobsOf, Publishes, LinesOf, Translations, Normalize, KeysOf, Reread, AcceptedOf, DrawsAgain, Echoes, HasKey,
      BuiltLedger, SingleLines;
    var out := LinesOf(pub);
    if key in inp.source && !p.ignored(key) {
      PublishedIsSettled(p, inp, pub, key);
      SettledSelection(p, out, pub.failed, next, key);
      RereadTranslations(out, next.lines, key);
      if key in pub.failed { AcceptedIsNotFailed(p, next, key); }
      if key !in AcceptedOf(p, next) {
        forall i: nat ensures DrawsAt(p, next.lines, key, inp.source[key], Translations(out)[key], i)
                              <==> EchoesAt(p, next.lines, key, inp.source[key], i)
        {
          DrawsWhereItEchoes(p, inp, pub, next, key, i);
        }
      }
    } else if key in KeysOf(JobsOf(p, next)) {
      SelectedIsNotIgnored(p, next, key);
    }
  }

  lemma {:induction false} DrawsWhereItEchoes(p: Policy, inp: Inputs, pub: Publication, next: Inputs, key: Text, i: nat)
    requires Continues(p, inp, pub, next) && key != [] && key in inp.source && !p.ignored(key)
             && key !in AcceptedOf(p, next)
    requires key in Translations(LinesOf(pub))
    ensures DrawsAt(p, next.lines, key, inp.source[key], Translations(LinesOf(pub))[key], i)
            <==> EchoesAt(p, next.lines, key, inp.source[key], i)
  {
    hide Publishes, LinesOf, Translations, Normalize, NonBlank, AcceptedOf, DrawsAgain, Echoes, HasKey, SingleLines,
      BuiltLedger;
    var out := LinesOf(pub);
    RereadTranslations(out, next.lines, key);
    if EntryAt(next.lines, key, i) {
      assert RereadItem(out[i], next.lines[i]);
      if NonBlank(inp.source[key]) && !NonBlank(out[i].value) {
        PublishedIsFilled(p, inp, pub, key, i);
        AcceptedAgain(p, inp, pub, next, key);
      }
      DrawsOnlyByEcho(p, inp.source[key], Translations(out)[key], out[i].value, next.lines[i].value,
          Translations(next.lines)[key]);
    }
  }

  /** Where keys are distinct and echoes are not redone, no line looks untranslated beside its own
      published value. */
  lemma {:induction false} DistinctKeysNeverEcho(p: Policy, lines: seq<Item>, key: Text, source: Text, i: nat)
    requires DistinctKeys(lines) && !p.retranslateIdentical
    ensures !EchoesAt(p, lines, key, source, i)
  {
    hide Normalize, Translations;
    if EntryAt(lines, key, i) { OnlyEntryIsLast(lines, i); }
  }

  /** A key that this run translated has no such line either: only keys that it left alone have. */
  lemma {:induction false} TranslatedNeverEchoes(p: Policy, inp: Inputs, pub: Publication, again: seq<Item>, key: Text,
        i: nat)
    requires Publishes(p, inp, pub) && !p.retranslateIdentical
    requires key in pub.selected && key != [] && Reread(LinesOf(pub), again)
    ensures !EchoesAt(p, again, key, Get(inp.source, key), i)
  {
    hide Publishes, LinesOf, Translations, Normalize, EscapeNewlines, HasKey;
    if EntryAt(again, key, i) {
      assert RereadItem(LinesOf(pub)[i], again[i]);
      SelectedValueEverywhere(p, inp, pub, key, i);
      RereadTranslations(LinesOf(pub), again, key);
    }
  }
}
