/** Which keys a run selects, told by its inputs alone. */
module RunSelection {
  import opened Texts
  import opened PropertiesFile
  import opened Entries
  import opened Normalizing
  import opened Ledgers
  import opened Selection
  import opened Memory
  import opened Assembly
  import opened Integration
  import opened Reviewing
  import opened FileRun

  predicate EntryAt(lines: seq<Item>, key: Text, i: nat) {
    i < |lines| && lines[i].Entry? && lines[i].key == key
  }

  lemma {:induction false} HasSomeEntry(lines: seq<Item>, key: Text)
    ensures HasKey(lines, key) <==> exists i: nat :: EntryAt(lines, key, i)
  {
    if i :| 0 <= i < |lines| && lines[i].Entry? && lines[i].key == key { assert EntryAt(lines, key, i); }
  }

  /** Lines and dictionary of a key that is not ignored are what the file holds. */
  lemma {:induction false} PreparedKeeps(p: Policy, next: Inputs, key: Text)
    requires !p.ignored(key)
    ensures |Prepared(p, next)| == |next.lines|
    ensures forall i :: 0 <= i < |next.lines| ==>
              && (next.lines[i].Entry? && next.lines[i].key == key <==> Prepared(p, next)[i].Entry?
                                                                        && Prepared(p, next)[i].key == key)
              && (next.lines[i].Entry? && next.lines[i].key == key ==> Prepared(p, next)[i] == next.lines[i])
    ensures HasKey(Prepared(p, next), key) <==> HasKey(next.lines, key)
    ensures key in Translations(Prepared(p, next)) <==> key in Translations(next.lines)
    ensures key in Translations(next.lines) ==> Translations(Prepared(p, next))[key] == Translations(next.lines)[key]
    ensures key in Translations(next.lines) <==> HasKey(next.lines, key)
  {
    var forced := ForcedValues(p, next.source);
    OverrideAllTranslations(next.lines, forced, key);
    OverrideAllKeepsKeys(next.lines, forced);
    SameKeysSameLast(next.lines, OverrideAll(next.lines, forced), key);
    TranslationsKeys(next.lines, key);
    hide Translations, HasKey;
  }

  // ------------------------------------------------------------- the reasons to select

  /** The value of the key repeats its source, character by character, as the policy accepts it, and
      did not fail before. */
  ghost predicate AcceptedAsIs(p: Policy, inp: Inputs, key: Text) {
    var target := Translations(inp.lines);
    && key in inp.source && inp.source[key] != [] && key in target && target[key] == inp.source[key]
    && key in p.accepted && p.accepted[key] == inp.source[key]
    && (key in inp.ledger ==> !inp.ledger[key].failed)
  }

  /** Git reports the key, and its value equals its source or the ledger does not know its source. */
  ghost predicate Reported(p: Policy, inp: Inputs, key: Text)
    requires key in inp.source
  {
    var target, s := Translations(inp.lines), inp.source[key];
    && key in inp.changed
    && ((key in target && Normalize(target[key]) == Normalize(s))
        || key !in inp.ledger || inp.ledger[key].sourceHash != Some(p.hash(Normalize(s))))
  }

  /** The ledger says that the key failed, that its source has changed, or that a value other than the
      source has become one that hashes like it. */
  ghost predicate Overdue(p: Policy, inp: Inputs, key: Text, value: Text)
    requires key in inp.source
  {
    var now := p.hash(Normalize(inp.source[key]));
    key in inp.ledger &&
      var entry := inp.ledger[key];
      || entry.failed
      || (entry.sourceHash.Some? && entry.sourceHash.value != now)
      || (entry.targetHash.Some? && entry.targetHash.value != now && p.hash(Normalize(value)) == now)
  }

  /** A value that is blank for a source that is not, or repeats it where such values are redone. */
  predicate Unfilled(p: Policy, source: Text, value: Text) {
    || (NonBlank(source) && !NonBlank(value))
    || (p.retranslateIdentical && Normalize(value) == Normalize(source))
  }

  /** Line `i` holds a value of the key that is to be translated. */
  ghost predicate DueAt(p: Policy, inp: Inputs, key: Text, i: nat)
    requires key in inp.source
  {
    && EntryAt(inp.lines, key, i)
    && (Unfilled(p, inp.source[key], inp.lines[i].value) || Overdue(p, inp, key, inp.lines[i].value))
  }

  // ------------------------------------------------------------------------ selection

  lemma {:induction false} AcceptedExactly(p: Policy, inp: Inputs, key: Text)
    requires !p.ignored(key)
    ensures key in AcceptedOf(p, inp) <==> AcceptedAsIs(p, inp, key)
  {
    PreparedKeeps(p, inp, key);
    hide Prepared, Translations, Normalize, HasKey;
  }

  lemma {:induction false} FilteredExactly(p: Policy, inp: Inputs, key: Text)
    requires key in inp.source && !p.ignored(key)
    ensures key in Filtered(p, inp) <==> key !in AcceptedOf(p, inp) && Reported(p, inp, key)
  {
    PreparedKeeps(p, inp, key);
    hide Prepared, Translations, Normalize, HasKey, AcceptedOf;
  }

  lemma {:induction false} NeedsExactly(p: Policy, inp: Inputs, key: Text, value: Text)
    requires key in inp.source
    ensures Needs(ContextOf(p, inp), key, value)
            <==> key in inp.added || key in Filtered(p, inp)
                 || Unfilled(p, inp.source[key], value) || Overdue(p, inp, key, value)
  {
    hide Normalize, NonBlank, Filtered, AcceptedOf;
  }

  /** A run selects exactly the source keys that are not ignored and that the file lacks or that are
      due: not accepted as they are, and newly synchronised, or reported by git without a known
      source, or with a value that is unfilled or overdue. */
  lemma {:induction false} SelectionIsExact(p: Policy, inp: Inputs, key: Text)
    requires Sane(inp)
    ensures key in KeysOf(JobsOf(p, inp))
            <==> && key in inp.source && !p.ignored(key)
                 && (!HasKey(inp.lines, key)
                     || (!AcceptedAsIs(p, inp, key)
                         && (key in inp.added || Reported(p, inp, key) || exists i: nat :: DueAt(p, inp, key, i))))
  {
    var c, lines := ContextOf(p, inp), Prepared(p, inp);
    assert JobsOf(p, inp) == Selected(c, lines, inp.order);
    if key in inp.source && !p.ignored(key) {
      SelectedKeysExact(c, lines, inp.order, key);
      PreparedKeeps(p, inp, key);
      AcceptedExactly(p, inp, key);
      FilteredExactly(p, inp, key);
      HasSomeEntry(inp.lines, key);
      hide JobsOf, Prepared, Selected, Needs, Unfilled, Overdue, HasKey, Translations, AcceptedOf, Filtered, KeysOf,
        AcceptedAsIs, Reported;
      forall i: nat
        ensures PicksLine(c, lines, i) && lines[i].key == key
                <==> EntryAt(inp.lines, key, i) && !AcceptedAsIs(p, inp, key)
                     && (key in inp.added || Reported(p, inp, key) || DueAt(p, inp, key, i))
      {
        if EntryAt(inp.lines, key, i) { NeedsExactly(p, inp, key, inp.lines[i].value); }
      }
    } else if key in KeysOf(JobsOf(p, inp)) {
      SelectedKeysAreTranslatable(c, lines, inp.order, key);
    }
  }
}
