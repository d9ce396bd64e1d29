/** The translation memory: a store of approved translations that refuses to reuse a source
    for which different targets were approved. */
module Memory {
  import opened Texts

  const CONFLICT: Text := [0x63, 0x6F, 0x6E, 0x66, 0x6C, 0x69, 0x63, 0x74]
  const ACTIVE: Text := [0x61, 0x63, 0x74, 0x69, 0x76, 0x65]

  type Key = Text

  datatype Metadata = Metadata(
    source: Option<Text>,
    sourceHash: Option<Text>,
    locale: Option<Text>,
    formatId: Option<Text>,
    fingerprint: Option<Text>)

  /** One record; a field the record does not have is absent. The sorted list of conflicting
      targets is kept as a set. */
  datatype Entry = Entry(
    status: Option<Text>,
    target: Option<Text>,
    targets: set<Text>,
    metadata: Metadata)

  type Store = map<Key, Entry>

  /** What a caller of `record` or `promote` gives beside the target. */
  datatype Provenance = Provenance(
    source: Text,
    sourceHash: Text,
    locale: Text,
    formatId: Text,
    fingerprint: Option<Text>)

  /** `_entry_key` */
  function EntryKey(p: Provenance): Key {
    p.formatId + [COLON] + p.locale + [COLON] + p.sourceHash
  }

  predicate IsConflict(e: Entry) {
    e.status == Some(CONFLICT)
  }

  /** An entry without any field is falsy and counts as none. */
  predicate IsBlank(e: Entry) {
    e == Entry(None, None, {}, Metadata(None, None, None, None, None))
  }

  /** `_entry_targets` */
  function Targets(e: Entry): set<Text> {
    if IsConflict(e) then e.targets
    else if e.target.Some? then {e.target.value}
    else {}
  }

  function StatusOf(e: Entry): Text {
    if e.status.Some? then e.status.value else ACTIVE
  }

  /** `_entries_match` */
  predicate EntriesMatch(left: Entry, right: Entry) {
    StatusOf(left) == StatusOf(right) && Targets(left) == Targets(right)
  }

  function OrElse(field: Option<Text>, other: Option<Text>): Option<Text> {
    if field.Some? then field else other
  }

  /** `_fill_missing_metadata` */
  function FillMissing(e: Entry, from: Metadata): Entry {
    var m := e.metadata;
    e.(metadata := Metadata(
         OrElse(m.source, from.source), OrElse(m.sourceHash, from.sourceHash), OrElse(m.locale, from.locale),
         OrElse(m.formatId, from.formatId), OrElse(m.fingerprint, from.fingerprint)))
  }

  function MarkConflict(e: Entry, from: Metadata, targets: set<Text>): Entry {
    FillMissing(e.(status := Some(CONFLICT), target := None, targets := targets), from)
  }

  function DemoteConflict(e: Entry, target: Text): Entry {
    e.(status := Some(ACTIVE), target := Some(target), targets := {})
  }

  function ActiveEntry(p: Provenance, target: Text): Entry {
    Entry(Some(ACTIVE), Some(target), {},
          Metadata(Some(p.source), Some(p.sourceHash), Some(p.locale), Some(p.formatId), p.fingerprint))
  }

  /** The record after a further approved target. */
  function RecordedEntry(existing: Entry, p: Provenance, target: Text): Entry {
    if IsBlank(existing) then ActiveEntry(p, target) else
      var m := existing.metadata;
      var e := existing.(metadata := m.(fingerprint := OrElse(p.fingerprint, m.fingerprint),
                                        source := OrElse(m.source, Some(p.source))));
      if IsConflict(existing) then
        var targets := existing.targets + {target};
        if targets == {target} then DemoteConflict(e, target) else e.(targets := targets)
      else if existing.target == Some(target) then e
      else
        var previous := if existing.target.Some? then existing.target.value else [];
        e.(status := Some(CONFLICT), target := None, targets := {previous, target} - {[]})
  }

  function Recorded(store: Store, p: Provenance, target: Text): Store {
    var key := EntryKey(p);
    store[key := if key in store then RecordedEntry(store[key], p, target) else ActiveEntry(p, target)]
  }

  function Promoted(store: Store, p: Provenance, target: Text): Store {
    store[EntryKey(p) := ActiveEntry(p, target)]
  }

  function MergedEntry(existing: Entry, incoming: Entry): Entry {
    var targets := Targets(existing) + Targets(incoming);
    if EntriesMatch(existing, incoming) then FillMissing(existing, incoming.metadata)
    else if |targets| <= 1 then
      var e := FillMissing(existing, incoming.metadata);
      if targets != {} && IsConflict(existing) then DemoteConflict(e, Only(targets)) else e
    else MarkConflict(existing, incoming.metadata, targets)
  }

  function Only(s: set<Text>): (t: Text)
    requires |s| == 1
    ensures s == {t}
  {
    SingletonElement(s);
    var t :| t in s;
    t
  }

  lemma {:induction false} SingletonElement(s: set<Text>)
    requires |s| == 1
    ensures exists t :: t in s
    ensures forall t :: t in s ==> s == {t}
  {
    forall t | t in s ensures s == {t} {
      assert |s - {t}| == 0;
    }
    assert s != {};
  }

  /** The store after the incoming records under `keys` were merged. */
  function MergedOn(store: Store, incoming: Store, keys: set<Key>): Store
    requires keys <= incoming.Keys
  {
    map k | k in store.Keys + keys ::
      if k !in keys then store[k] else if k !in store then incoming[k] else MergedEntry(store[k], incoming[k])
  }

  function Merged(store: Store, incoming: Store): Store {
    MergedOn(store, incoming, incoming.Keys)
  }

  function LookupEntry(e: Entry, fingerprint: Option<Text>): Option<Text> {
    if IsConflict(e) then None
    else if fingerprint.Some? && e.metadata.fingerprint.Some? && e.metadata.fingerprint != fingerprint then None
    else e.target
  }

  function LookupKey(store: Store, key: Key, fingerprint: Option<Text>): Option<Text> {
    if key in store then LookupEntry(store[key], fingerprint) else None
  }

  datatype MergeResult = MergeResult(imported: nat, kept: nat, conflicts: nat)

  /** What merging does to one key. */
  datatype Effect = Imported | Kept | Conflicted

  function EffectOn(store: Store, incoming: Store, key: Key): Effect
    requires key in incoming
  {
    if key !in store then Imported
    else if EntriesMatch(store[key], incoming[key]) || |Targets(store[key]) + Targets(incoming[key])| <= 1 then Kept
    else Conflicted
  }

  function Affected(store: Store, incoming: Store, keys: set<Key>, effect: Effect): set<Key>
    requires keys <= incoming.Keys
  {
    set k | k in keys && EffectOn(store, incoming, k) == effect
  }

  /** The three counters say how many of the keys were treated which way, and together count them all. */
  predicate Tallies(store: Store, incoming: Store, keys: set<Key>, r: MergeResult)
    requires keys <= incoming.Keys
  {
    && r.imported == |Affected(store, incoming, keys, Imported)|
    && r.kept == |Affected(store, incoming, keys, Kept)|
    && r.conflicts == |Affected(store, incoming, keys, Conflicted)|
    && r.imported + r.kept + r.conflicts == |keys|
  }

  // --------------------------------------------------------------- the mutable store

  class TranslationMemory {
    var entries: Store

    constructor (initial: Store)
      ensures entries == initial
    {
      entries := initial;
    }

    /** `lookup` */
    method Lookup(key: Key, fingerprint: Option<Text>) returns (found: Option<Text>)
      ensures found == LookupKey(entries, key, fingerprint)
    {
      if key !in entries || IsBlank(entries[key]) || IsConflict(entries[key]) {
        return None;
      }
      var entry := entries[key];
      var known := entry.metadata.fingerprint;
      if fingerprint.Some? && known.Some? && known.value != fingerprint.value {
        return None;
      }
      return entry.target;
    }

    /** `record` */
    method Record(p: Provenance, target: Text)
      modifies this
      ensures entries == Recorded(old(entries), p, target)
    {
      var key := EntryKey(p);
      if key !in entries || IsBlank(entries[key]) {
        entries := entries[key := ActiveEntry(p, target)];
        return;
      }
      var entry := entries[key];
      if p.fingerprint.Some? {
        entry := entry.(metadata := entry.metadata.(fingerprint := p.fingerprint));
      }
      if entry.metadata.source.None? {
        entry := entry.(metadata := entry.metadata.(source := Some(p.source)));
      }
      if IsConflict(entry) {
        var targets := entry.targets + {target};
        if |targets| == 1 {
          SingletonElement(targets);
          entry := DemoteConflict(entry, target);
        } else {
          entry := entry.(targets := targets);
        }
      } else if entry.target != Some(target) {
        var previous := if entry.target.Some? then entry.target.value else [];
        entry := entry.(status := Some(CONFLICT), target := None, targets := {previous, target} - {[]});
      }
      entries := entries[key := entry];
    }

    /** `promote` */
    method Promote(p: Provenance, target: Text)
      modifies this
      ensures entries == Promoted(old(entries), p, target)
    {
      entries := entries[EntryKey(p) := ActiveEntry(p, target)];
    }

    /** What merging does to one record of this memory. */
    static method MergeEntry(existing: Entry, incoming: Entry) returns (entry: Entry, disagree: bool)
      ensures entry == MergedEntry(existing, incoming)
      ensures disagree <==> !EntriesMatch(existing, incoming) && |Targets(existing) + Targets(incoming)| > 1
    {
      if EntriesMatch(existing, incoming) {
        return FillMissing(existing, incoming.metadata), false;
      }
      var targets := Targets(existing) + Targets(incoming);
      if |targets| > 1 {
        return MarkConflict(existing, incoming.metadata, targets), true;
      }
      entry := FillMissing(existing, incoming.metadata);
      if targets != {} && IsConflict(existing) {
        entry := DemoteConflict(entry, Only(targets));
      }
      return entry, false;
    }

    /** `merge_from`, in whatever order the incoming records come; the other memory may be this one. */
    method MergeFrom(other: TranslationMemory) returns (result: MergeResult)
      modifies this
      ensures entries == Merged(old(entries), old(other.entries))
      ensures Tallies(old(entries), old(other.entries), old(other.entries).Keys, result)
    {
      hide MergedOn, Tallies, MergedEntry, EntriesMatch, Targets;
      ghost var mine := entries;
      var theirs := other.entries;
      var imported, kept, conflicts := 0, 0, 0;
      var todo := theirs.Keys;
      ghost var done := {};
      NothingMerged(mine, theirs);
      while todo != {}
        invariant done + todo == theirs.Keys && done !! todo
        invariant entries == MergedOn(mine, theirs, done)
        invariant Tallies(mine, theirs, done, MergeResult(imported, kept, conflicts))
        decreases |todo|
      {
        var key :| key in todo;
        todo := todo - {key};
        var incoming := theirs[key];
        TalliesGrow(mine, theirs, done, key, MergeResult(imported, kept, conflicts));
        MergedOnGrows(mine, theirs, done, key);
        if key !in entries {
          entries := entries[key := incoming];
          imported := imported + 1;
        } else {
          var entry, disagree := MergeEntry(entries[key], incoming);
          entries := entries[key := entry];
          if disagree {
            conflicts := conflicts + 1;
          } else {
            kept := kept + 1;
          }
        }
        done := done + {key};
      }
      assert done == theirs.Keys;
      return MergeResult(imported, kept, conflicts);
    }
  }

  lemma {:induction false} NothingMerged(store: Store, incoming: Store)
    ensures MergedOn(store, incoming, {}) == store
    ensures Tallies(store, incoming, {}, MergeResult(0, 0, 0))
  {
    assert forall effect :: Affected(store, incoming, {}, effect) == {};
  }

  lemma {:induction false} AffectedGrows(store: Store, incoming: Store, keys: set<Key>, key: Key, effect: Effect)
    requires keys <= incoming.Keys && key in incoming && key !in keys
    ensures |Affected(store, incoming, keys + {key}, effect)|
            == |Affected(store, incoming, keys, effect)| + if EffectOn(store, incoming, key) == effect then 1 else 0
  {
    hide EffectOn;
    if EffectOn(store, incoming, key) == effect {
      assert Affected(store, incoming, keys + {key}, effect) == Affected(store, incoming, keys, effect) + {key};
    } else {
      assert Affected(store, incoming, keys + {key}, effect) == Affected(store, incoming, keys, effect);
    }
  }

  lemma {:induction false} TalliesGrow(store: Store, incoming: Store, keys: set<Key>, key: Key, r: MergeResult)
    requires keys <= incoming.Keys && key in incoming && key !in keys
    requires Tallies(store, incoming, keys, r)
    ensures Tallies(store, incoming, keys + {key},
                    match EffectOn(store, incoming, key)
                    case Imported => r.(imported := r.imported + 1)
                    case Kept => r.(kept := r.kept + 1)
                    case Conflicted => r.(conflicts := r.conflicts + 1))
  {
    hide EffectOn, Affected;
    AffectedGrows(store, incoming, keys, key, Imported);
    AffectedGrows(store, incoming, keys, key, Kept);
    AffectedGrows(store, incoming, keys, key, Conflicted);
  }

  lemma {:induction false} MergedOnGrows(store: Store, incoming: Store, keys: set<Key>, key: Key)
    requires keys <= incoming.Keys && key in incoming && key !in keys
    ensures var before := MergedOn(store, incoming, keys);
            && (key in before <==> key in store)
            && (key in store ==> before[key] == store[key])
            && MergedOn(store, incoming, keys + {key})
               == before[key := if key in store then MergedEntry(store[key], incoming[key]) else incoming[key]]
  {
  }

  // ------------------------------------------------------- what the store stands for

  /** The targets approved for a key. */
  function Approved(store: Store, key: Key): set<Text> {
    if key in store then Targets(store[key]) else {}
  }

  /** A record that has targets and is a conflict exactly when there are several. */
  predicate Settled(e: Entry) {
    Targets(e) != {} && (IsConflict(e) <==> |Targets(e)| >= 2)
  }

  ghost predicate AllSettled(store: Store) {
    forall k :: k in store ==> Settled(store[k])
  }

  /** A settled store without empty targets. */
  ghost predicate Clean(store: Store) {
    AllSettled(store) && forall k :: k in store ==> [] !in Targets(store[k])
  }

  /** An empty and another target meet on an active record: the empty one is dropped. */
  predicate DropsEmpty(existing: Entry, target: Text) {
    && !IsConflict(existing) && existing.target != Some(target)
    && (target == [] || existing.target == Some([]))
  }

  lemma {:induction false} TwoElements(s: set<Text>, a: Text, b: Text)
    requires a in s && b in s && a != b
    ensures |s| >= 2
  {
    assert {a, b} <= s;
    SubsetSize({a, b}, s);
  }

  lemma {:induction false} SubsetSize(a: set<Text>, b: set<Text>)
    requires a <= b
    ensures |a| <= |b|
    decreases a
  {
    if a != {} {
      var t :| t in a;
      SubsetSize(a - {t}, b - {t});
    }
  }

  /** Recording adds the target to the set and keeps the record settled, except exactly when the
      empty target is one of two that meet on an active record. */
  lemma {:induction false} RecordAddsTarget(existing: Entry, p: Provenance, target: Text)
    requires Settled(existing)
    ensures Targets(RecordedEntry(existing, p, target)) == Targets(existing) + {target}
            <==> !DropsEmpty(existing, target)
    ensures Settled(RecordedEntry(existing, p, target)) <==> !DropsEmpty(existing, target)
  {
    var after := RecordedEntry(existing, p, target);
    if IsConflict(existing) {
      SubsetSize(existing.targets, existing.targets + {target});
    } else {
      var previous := existing.target.value;
      assert Targets(existing) == {previous};
      if previous != target {
        assert IsConflict(after) && Targets(after) == {previous, target} - {[]};
        if previous == [] {
          assert {previous, target} - {[]} == {target};
        } else if target == [] {
          assert {previous, target} - {[]} == {previous};
        } else {
          assert {previous, target} - {[]} == {previous, target};
          TwoElements({previous, target}, previous, target);
        }
        assert previous in Targets(existing) + {target} && target in Targets(existing) + {target};
      }
    }
  }

  /** Merging unites the target sets, whatever the records hold, unless the existing one is not a
      conflict and has no target: then a single incoming target is not taken over. */
  lemma {:induction false} MergeUnitesTargets(existing: Entry, incoming: Entry)
    ensures Targets(MergedEntry(existing, incoming)) == Targets(existing) + Targets(incoming)
            <==> !(Targets(existing) == {} && !IsConflict(existing) && |Targets(incoming)| == 1)
    ensures Settled(existing) && Settled(incoming) ==> Settled(MergedEntry(existing, incoming))
  {
    var targets := Targets(existing) + Targets(incoming);
    SubsetSize(Targets(existing), targets);
    SubsetSize(Targets(incoming), targets);
    if EntriesMatch(existing, incoming) {
      assert targets == Targets(existing);
    } else if |targets| <= 1 {
      if targets != {} {
        SingletonElement(targets);
        assert targets == {Only(targets)};
        assert Targets(existing) == {} || Targets(existing) == targets;
        if Targets(existing) == {} { assert targets == Targets(incoming); }
      }
    }
  }

  /** The record was approved in another context than the one asked for. */
  predicate OtherContext(store: Store, key: Key, fingerprint: Option<Text>) {
    && key in store && fingerprint.Some? && store[key].metadata.fingerprint.Some?
    && store[key].metadata.fingerprint != fingerprint
  }

  /** A lookup finds a target exactly when it is the only one approved and no two different
      context fingerprints are at hand. */
  lemma {:induction false} LookupIsAgreement(store: Store, key: Key, fingerprint: Option<Text>, target: Text)
    requires AllSettled(store)
    ensures LookupKey(store, key, fingerprint) == Some(target)
            <==> Approved(store, key) == {target} && !OtherContext(store, key, fingerprint)
  {
    if key in store {
      assert Settled(store[key]);
      if !IsConflict(store[key]) {
        assert store[key].target.Some?;
        assert store[key].target.value in Targets(store[key]);
      }
      assert |{target}| == 1;
    } else {
      assert target in {target};
    }
  }

  // ------------------------------------------------------------------ whole runs

  datatype Step =
    | Record(provenance: Provenance, target: Text)
    | Promote(provenance: Provenance, target: Text)
    | Merge(incoming: Store)

  function Stepped(store: Store, step: Step): Store {
    match step
    case Record(p, target) => Recorded(store, p, target)
    case Promote(p, target) => Promoted(store, p, target)
    case Merge(incoming) => Merged(store, incoming)
  }

  function Run(store: Store, steps: seq<Step>): Store
    decreases |steps|
  {
    if steps == [] then store else Run(Stepped(store, steps[0]), steps[1..])
  }

  lemma {:induction false} RunAppend(store: Store, steps: seq<Step>, step: Step)
    ensures Run(store, steps + [step]) == Stepped(Run(store, steps), step)
    decreases |steps|
  {
    hide Stepped;
    if steps == [] {
      assert [] + [step] == [step] && [step][1..] == [];
      assert Run(Stepped(store, step), []) == Stepped(store, step);
    } else {
      assert (steps + [step])[1..] == steps[1..] + [step];
      RunAppend(Stepped(store, steps[0]), steps[1..], step);
    }
  }

  /** The targets a step brings for a key. */
  function Given(step: Step, key: Key): set<Text> {
    match step
    case Merge(incoming) => Approved(incoming, key)
    case _ => if EntryKey(step.provenance) == key then {step.target} else {}
  }

  /** What the step means for the approved targets of a key: recording and merging add, promoting resets. */
  function Meant(approved: set<Text>, step: Step, key: Key): set<Text> {
    if step.Promote? && EntryKey(step.provenance) == key then {step.target} else approved + Given(step, key)
  }

  function MeantBy(approved: set<Text>, steps: seq<Step>, key: Key): set<Text>
    decreases |steps|
  {
    if steps == [] then approved else MeantBy(Meant(approved, steps[0], key), steps[1..], key)
  }

  /** A step with a target; a merged memory is itself clean. */
  ghost predicate Sound(step: Step) {
    match step
    case Merge(incoming) => Clean(incoming)
    case _ => step.target != []
  }

  lemma {:induction false} StepRefinesSets(store: Store, step: Step, key: Key)
    requires Clean(store) && Sound(step)
    ensures Clean(Stepped(store, step))
    ensures Approved(Stepped(store, step), key) == Meant(Approved(store, key), step, key)
  {
    var after := Stepped(store, step);
    forall k | k in after
      ensures Settled(after[k]) && Targets(after[k]) == Meant(Approved(store, k), step, k) && [] !in Targets(after[k])
    {
      StepOnKey(store, step, k);
    }
    if key !in after {
      assert key !in store;
    }
  }

  lemma {:induction false} StepOnKey(store: Store, step: Step, k: Key)
    requires Clean(store) && Sound(step) && k in Stepped(store, step)
    ensures var after := Stepped(store, step)[k];
            Settled(after) && Targets(after) == Meant(Approved(store, k), step, k) && [] !in Targets(after)
  {
    hide RecordedEntry, MergedEntry, Targets, Settled, ActiveEntry, DropsEmpty;
    match step
    case Record(p, target) =>
      ActiveIsSettled(p, target);
      if k == EntryKey(p) && k in store {
        RecordAddsTarget(store[k], p, target);
        NothingDropped(store[k], target);
      }
    case Promote(p, target) =>
      ActiveIsSettled(p, target);
    case Merge(incoming) =>
      if k in store && k in incoming {
        MergeUnitesTargets(store[k], incoming[k]);
        SettledHasTargets(store[k]);
      }
  }

  lemma {:induction false} ActiveIsSettled(p: Provenance, target: Text)
    ensures Settled(ActiveEntry(p, target)) && Targets(ActiveEntry(p, target)) == {target}
  {
    assert CONFLICT[0] != ACTIVE[0];
  }

  /** Promotion forgets whatever was approved or in conflict under its key: the target is the only one
      approved, a lookup finds it unless it asks for another context than the promotion named, other
      keys keep their records, and what was recorded under the key before makes no difference. */
  lemma {:induction false} PromoteResets(store: Store, p: Provenance, target: Text, fingerprint: Option<Text>,
        before: Text, other: Key)
    requires AllSettled(store)
    ensures var after := Promoted(store, p, target);
            && AllSettled(after) && Approved(after, EntryKey(p)) == {target}
            && (other != EntryKey(p) ==> Approved(after, other) == Approved(store, other))
            && (other != EntryKey(p) ==> LookupKey(after, other, fingerprint) == LookupKey(store, other, fingerprint))
            && LookupKey(after, EntryKey(p), fingerprint)
               == (if fingerprint.Some? && p.fingerprint.Some? && p.fingerprint != fingerprint then None
                   else Some(target))
    ensures Promoted(Recorded(store, p, before), p, target) == Promoted(store, p, target)
  {
    ActiveIsSettled(p, target);
    assert CONFLICT[0] != ACTIVE[0];
    hide Settled, Targets, RecordedEntry;
  }

  lemma {:induction false} NothingDropped(e: Entry, target: Text)
    requires Settled(e) && [] !in Targets(e) && target != []
    ensures !DropsEmpty(e, target)
  {
    assert e.target.Some? && !IsConflict(e) ==> e.target.value in Targets(e);
  }

  /** Over every run the store stands for the set of approved targets of each key, and a lookup
      answers from that set alone. */
  lemma {:induction false} RunRefinesSets(store: Store, steps: seq<Step>, key: Key, target: Text)
    requires Clean(store) && forall i :: 0 <= i < |steps| ==> Sound(steps[i])
    ensures Clean(Run(store, steps))
    ensures Approved(Run(store, steps), key) == MeantBy(Approved(store, key), steps, key)
    ensures LookupKey(Run(store, steps), key, None) == Some(target)
            <==> MeantBy(Approved(store, key), steps, key) == {target}
    decreases |steps|
  {
    hide Stepped, Meant, Sound, Clean, LookupKey, Approved;
    if steps != [] {
      StepRefinesSets(store, steps[0], key);
      RunRefinesSets(Stepped(store, steps[0]), steps[1..], key, target);
    } else {
      CleanIsSettled(store);
      LookupIsAgreement(store, key, None, target);
    }
  }

  lemma {:induction false} CleanIsSettled(store: Store)
    requires Clean(store)
    ensures AllSettled(store)
  {
  }

  lemma {:induction false} WithoutPromotion(approved: set<Text>, steps: seq<Step>, key: Key, target: Text)
    requires forall i :: 0 <= i < |steps| ==> !steps[i].Promote?
    ensures target in MeantBy(approved, steps, key)
            <==> target in approved || exists i :: 0 <= i < |steps| && target in Given(steps[i], key)
    decreases |steps|
  {
    hide Given;
    if steps != [] {
      WithoutPromotion(approved + Given(steps[0], key), steps[1..], key, target);
      assert forall i :: 0 < i < |steps| ==> steps[i] == steps[1..][i - 1];
      assert forall i :: 0 <= i < |steps[1..]| ==> steps[1..][i] == steps[i + 1];
    }
  }

  /** Records and merges may come in any order and any number of times: two runs made of the same
      steps answer every lookup alike. */
  lemma {:induction false} OrderIsIrrelevant(store: Store, steps: seq<Step>, others: seq<Step>, key: Key)
    requires Clean(store) && forall i :: 0 <= i < |steps| ==> Sound(steps[i]) && !steps[i].Promote?
    requires forall step :: step in steps <==> step in others
    ensures Approved(Run(store, steps), key) == Approved(Run(store, others), key)
    ensures LookupKey(Run(store, steps), key, None) == LookupKey(Run(store, others), key, None)
  {
    forall i | 0 <= i < |others| ensures Sound(others[i]) && !others[i].Promote? {
      assert others[i] in steps;
    }
    hide Sound, Clean, Given, MeantBy, Run, LookupKey;
    var before := Approved(store, key);
    RunRefinesSets(store, steps, key, []);
    RunRefinesSets(store, others, key, []);
    hide Approved;
    forall target ensures target in MeantBy(before, steps, key) <==> target in MeantBy(before, others, key) {
      WithoutPromotion(before, steps, key, target);
      WithoutPromotion(before, others, key, target);
      forall i | 0 <= i < |steps| ensures steps[i] in others {
      }
      forall i | 0 <= i < |others| ensures others[i] in steps {
      }
    }
    CleanIsSettled(Run(store, steps));
    CleanIsSettled(Run(store, others));
    SameApprovedSameLookup(Run(store, steps), Run(store, others), key);
  }

  lemma {:induction false} SameApprovedSameLookup(a: Store, b: Store, key: Key)
    requires AllSettled(a) && AllSettled(b)
    requires Approved(a, key) == Approved(b, key)
    ensures LookupKey(a, key, None) == LookupKey(b, key, None)
  {
    hide Approved, LookupKey, AllSettled;
    if LookupKey(a, key, None).Some? {
      LookupIsAgreement(a, key, None, LookupKey(a, key, None).value);
      LookupIsAgreement(b, key, None, LookupKey(a, key, None).value);
    }
    if LookupKey(b, key, None).Some? {
      LookupIsAgreement(a, key, None, LookupKey(b, key, None).value);
      LookupIsAgreement(b, key, None, LookupKey(b, key, None).value);
    }
  }

  lemma {:induction false} MergeIsUnion(a: Store, b: Store, key: Key)
    requires AllSettled(a) && AllSettled(b)
    ensures AllSettled(Merged(a, b))
    ensures Approved(Merged(a, b), key) == Approved(a, key) + Approved(b, key)
  {
    hide MergedEntry, Settled, Targets;
    forall k | k in Merged(a, b)
      ensures Settled(Merged(a, b)[k]) && Targets(Merged(a, b)[k]) == Approved(a, k) + Approved(b, k)
    {
      if k in a && k in b {
        SettledHasTargets(a[k]);
        MergeUnitesTargets(a[k], b[k]);
      }
    }
  }

  lemma {:induction false} SettledHasTargets(e: Entry)
    requires Settled(e)
    ensures Targets(e) != {}
  {
  }

  /** To a lookup, merging is commutative, associative and idempotent. */
  lemma {:induction false} MergeLaws(a: Store, b: Store, c: Store, key: Key)
    requires AllSettled(a) && AllSettled(b) && AllSettled(c)
    ensures LookupKey(Merged(a, b), key, None) == LookupKey(Merged(b, a), key, None)
    ensures LookupKey(Merged(Merged(a, b), c), key, None) == LookupKey(Merged(a, Merged(b, c)), key, None)
    ensures LookupKey(Merged(a, a), key, None) == LookupKey(a, key, None)
  {
    hide AllSettled, Merged, Approved, LookupKey;
    MergeIsUnion(a, b, key);
    MergeIsUnion(b, a, key);
    MergeIsUnion(b, c, key);
    MergeIsUnion(Merged(a, b), c, key);
    MergeIsUnion(a, Merged(b, c), key);
    MergeIsUnion(a, a, key);
    var (x, y, z) := (Approved(a, key), Approved(b, key), Approved(c, key));
    assert x + y == y + x && (x + y) + z == x + (y + z) && x + x == x;
    SameApprovedSameLookup(Merged(a, b), Merged(b, a), key);
    SameApprovedSameLookup(Merged(Merged(a, b), c), Merged(a, Merged(b, c)), key);
    SameApprovedSameLookup(Merged(a, a), a, key);
  }

  /** The empty target is forgotten: approved between two approvals of another target, it leaves a
      store that reuses that target as if nothing else had ever been approved. */
  lemma {:induction false} EmptyTargetIsForgotten(p: Provenance, target: Text)
    requires target != []
    ensures LookupKey(Run(map[], [Record(p, target), Record(p, [])]), EntryKey(p), None) == None
    ensures LookupKey(Run(map[], [Record(p, target), Record(p, []), Record(p, target)]), EntryKey(p), None)
            == Some(target)
    ensures MeantBy({}, [Record(p, target), Record(p, []), Record(p, target)], EntryKey(p)) == {target, []}
  {
    var first := Recorded(map[], p, target);
    var second := Recorded(first, p, []);
    var key := EntryKey(p);
    assert {target, []} - {[]} == {target};
    assert second[key].targets == {target} && IsConflict(second[key]);
    var third := Recorded(second, p, target);
    assert {target} + {target} == {target};
    assert third[key].target == Some(target);
    var steps := [Record(p, target), Record(p, [])];
    assert steps[1..] == [Record(p, [])] && steps[1..][1..] == [];
    assert Run(second, []) == second && Run(first, [Record(p, [])]) == second && Run(map[], steps) == second;
    var more := steps + [Record(p, target)];
    assert more[1..][1..] == [Record(p, target)] && more[1..][1..][1..] == [];
    assert Run(third, []) == third && Run(second, more[1..][1..]) == third;
    assert Run(map[], more) == third;
    assert MeantBy({} + {target} + {[]} + {target}, [], key) == {target, []};
    assert MeantBy({} + {target} + {[]}, more[1..][1..], key) == {target, []};
  }

  // ---------------------------------------------------------------- keys and contexts

  lemma {:induction false} CutAtColon(a: Text, b: Text, x: Text, y: Text)
    requires Lacks(a, COLON) && Lacks(b, COLON) && a + [COLON] + x == b + [COLON] + y
    ensures a == b && x == y
  {
    var s, t := a + [COLON] + x, b + [COLON] + y;
    assert s[|a|] == COLON && forall i :: 0 <= i < |a| ==> s[i] != COLON;
    assert t[|b|] == COLON && forall i :: 0 <= i < |b| ==> t[i] != COLON;
    assert |a| == |b|;
    assert a == s[..|a|] && b == t[..|b|] && x == s[|a| + 1..] && y == t[|b| + 1..];
  }

  /** Texts share a record exactly when format, locale and source hash agree. */
  lemma {:induction false} EntryKeysAreDistinct(p: Provenance, q: Provenance)
    requires Lacks(p.formatId, COLON) && Lacks(q.formatId, COLON) && Lacks(p.locale, COLON) && Lacks(q.locale, COLON)
    ensures EntryKey(p) == EntryKey(q)
            <==> p.formatId == q.formatId && p.locale == q.locale && p.sourceHash == q.sourceHash
  {
    if EntryKey(p) == EntryKey(q) {
      var x, y := p.locale + [COLON] + p.sourceHash, q.locale + [COLON] + q.sourceHash;
      assert EntryKey(p) == p.formatId + [COLON] + x && EntryKey(q) == q.formatId + [COLON] + y;
      hide EntryKey;
      CutAtColon(p.formatId, q.formatId, x, y);
      CutAtColon(p.locale, q.locale, p.sourceHash, q.sourceHash);
    }
  }

  /** The context a record is bound to. */
  function ContextAt(store: Store, key: Key): Option<Text> {
    if key in store then store[key].metadata.fingerprint else None
  }

  /** Recording binds the record to the context it was given in, if any, and otherwise leaves it bound
      as it was; merging binds a record only where it was unbound. */
  lemma {:induction false} ContextsAreKept(store: Store, p: Provenance, target: Text, incoming: Store, key: Key)
    ensures ContextAt(Recorded(store, p, target), key)
            == if key == EntryKey(p) && p.fingerprint.Some? then p.fingerprint else ContextAt(store, key)
    ensures ContextAt(Promoted(store, p, target), key)
            == if key == EntryKey(p) then p.fingerprint else ContextAt(store, key)
    ensures ContextAt(Merged(store, incoming), key)
            == if ContextAt(store, key).Some? then ContextAt(store, key) else ContextAt(incoming, key)
  {
    hide EntryKey, EntriesMatch, Targets;
  }

  function MetadataOf(p: Provenance): Metadata {
    Metadata(Some(p.source), Some(p.sourceHash), Some(p.locale), Some(p.formatId), p.fingerprint)
  }

  /** A new or promoted record carries where it came from; a recorded or merged one keeps what it has
      and takes what it lacks: of a recording the source, of another record every field. */
  lemma {:induction false} MetadataIsKept(store: Store, p: Provenance, target: Text, incoming: Store, key: Key)
    ensures EntryKey(p) !in store ==> Recorded(store, p, target)[EntryKey(p)].metadata == MetadataOf(p)
    ensures Promoted(store, p, target)[EntryKey(p)].metadata == MetadataOf(p)
    ensures EntryKey(p) in store && !IsBlank(store[EntryKey(p)]) ==>
              var before, after := store[EntryKey(p)].metadata, Recorded(store, p, target)[EntryKey(p)].metadata;
              && after.source == (if before.source.Some? then before.source else Some(p.source))
              && after.sourceHash == before.sourceHash && after.locale == before.locale
              && after.formatId == before.formatId
    ensures key in store && key in incoming ==>
              var mine, theirs := store[key].metadata, incoming[key].metadata;
              Merged(store, incoming)[key].metadata
              == Metadata(if mine.source.Some? then mine.source else theirs.source,
                          if mine.sourceHash.Some? then mine.sourceHash else theirs.sourceHash,
                          if mine.locale.Some? then mine.locale else theirs.locale,
                          if mine.formatId.Some? then mine.formatId else theirs.formatId,
                          if mine.fingerprint.Some? then mine.fingerprint else theirs.fingerprint)
  {
    hide EntryKey, EntriesMatch, Targets;
  }

  /** So a lookup behind a recording answers exactly the one target approved by then, unless it comes
      from another context than the one the record is bound to. */
  lemma {:induction false} RecordThenLookup(store: Store, p: Provenance, target: Text, fingerprint: Option<Text>,
        answer: Text)
    requires Clean(store) && target != []
    ensures var bound := if p.fingerprint.Some? then p.fingerprint else ContextAt(store, EntryKey(p));
            LookupKey(Recorded(store, p, target), EntryKey(p), fingerprint) == Some(answer)
            <==> Approved(store, EntryKey(p)) + {target} == {answer}
                 && !(fingerprint.Some? && bound.Some? && bound != fingerprint)
  {
    var after := Recorded(store, p, target);
    StepRefinesSets(store, Record(p, target), EntryKey(p));
    ContextsAreKept(store, p, target, map[], EntryKey(p));
    assert EntryKey(p) in after;
    hide EntryKey, Recorded, Approved, LookupKey;
    CleanIsSettled(after);
    LookupIsAgreement(after, EntryKey(p), fingerprint, answer);
  }

  /** Merging settled stores, a key is counted as imported when it is new, as a conflict when the two
      sides approve different targets, and as kept otherwise. */
  lemma {:induction false} CountedExactly(store: Store, incoming: Store, key: Key)
    requires AllSettled(store) && AllSettled(incoming) && key in incoming
    ensures EffectOn(store, incoming, key) == Imported <==> key !in store
    ensures EffectOn(store, incoming, key) == Conflicted
            <==> key in store && Approved(store, key) != Approved(incoming, key)
  {
    hide Targets;
    if key in store {
      SettledHasTargets(store[key]);
      SettledHasTargets(incoming[key]);
      if Approved(store, key) != Approved(incoming, key) {
        OneTargetEach(Approved(store, key), Approved(incoming, key));
      }
      assert Approved(store, key) == Approved(incoming, key) ==>
          Approved(store, key) + Approved(incoming, key) == Approved(store, key);
    }
  }

  lemma {:induction false} OneTargetEach(a: set<Text>, b: set<Text>)
    requires a != {} && b != {} && a != b
    ensures |a + b| >= 2
  {
    var x :| (x in a) != (x in b);
    var y :| y in (if x in a then b else a);
    TwoElements(a + b, x, y);
  }
}
