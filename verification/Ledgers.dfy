/** The persistent record of which source and target each key was last published with. */
module Ledgers {
  import opened Texts
  import opened Normalizing

  type Hash = Text

  type Values = map<Text, Text>

  /** One ledger entry; hashes may be absent from entries an older run wrote. */
  datatype LedgerEntry = LedgerEntry(sourceHash: Option<Hash>, targetHash: Option<Hash>, failed: bool)

  type Ledger = map<Text, LedgerEntry>

  const NO_ENTRY: LedgerEntry := LedgerEntry(None, None, false)

  function EntryOf(ledger: Ledger, key: Text): LedgerEntry {
    if key in ledger then ledger[key] else NO_ENTRY
  }

  /** What a run is configured with. The hash, the placeholder, glossary and control-character
      checks and the output escaping are arbitrary functions. */
  datatype Policy = Policy(
    ignored: Text -> bool,
    accepted: Values,
    retranslateIdentical: bool,
    reviewChunk: nat,
    hash: Text -> Hash,
    escape: (Text, Text) -> Text,
    controlFree: Text -> bool,
    glossaryKept: (Text, Text) -> bool,
    placeholdersKept: (Text, Text) -> bool)
  {
    /** `compute_ledger_hash` */
    function HashOf(value: Text): Hash {
      hash(Normalize(value))
    }

    /** `is_accepted_source_identical`, for the locale of the run. */
    predicate Accepts(key: Text, source: Text, target: Text) {
      source != [] && source == target && key in accepted && accepted[key] == source
    }
  }

  /** `values.get(key, "")` */
  function Get(values: Values, key: Text): Text {
    if key in values then values[key] else []
  }

  predicate Same(a: Text, b: Text) {
    Normalize(a) == Normalize(b)
  }

  /** `_ledger_verified_existing_translation` */
  function VerifiedExisting(p: Policy, key: Text, source: Values, existing: Values, ledger: Ledger): (r: Option<Text>)
    ensures r.Some? ==> key in existing && r.value == existing[key] && NonBlank(r.value)
                        && key in source && !Same(r.value, source[key])
  {
    if && key in source && key in existing && NonBlank(existing[key]) && !Same(existing[key], source[key])
       && EntryOf(ledger, key).sourceHash == Some(p.HashOf(source[key]))
       && EntryOf(ledger, key).targetHash == Some(p.HashOf(existing[key]))
    then Some(existing[key]) else None
  }

  function BuiltEntry(p: Policy, source: Values, final: Values, failed: set<Text>, key: Text): LedgerEntry
    requires key in final
  {
    LedgerEntry(Some(p.HashOf(Get(source, key))), Some(p.HashOf(final[key])), key in failed)
  }

  function BuiltLedger(p: Policy, source: Values, final: Values, failed: set<Text>): Ledger {
    map k | k in final :: BuiltEntry(p, source, final, failed, k)
  }

  /** `build_file_key_ledger` */
  method BuildFileKeyLedger(p: Policy, source: Values, final: Values, failed: set<Text>) returns (ledger: Ledger)
    ensures ledger == BuiltLedger(p, source, final, failed)
  {
    hide Normalize;
    ledger := map[];
    var todo := final.Keys;
    while todo != {}
      invariant todo <= final.Keys
      invariant ledger.Keys == final.Keys - todo
      invariant forall k :: k in ledger ==> ledger[k] == BuiltEntry(p, source, final, failed, k)
      decreases |todo|
    {
      var key :| key in todo;
      var entry := LedgerEntry(Some(p.HashOf(Get(source, key))), Some(p.HashOf(final[key])), false);
      if key in failed {
        entry := entry.(failed := true);
      }
      ledger := ledger[key := entry];
      todo := todo - {key};
    }
  }
}
