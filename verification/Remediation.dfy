/** Applying reviewed suggestions to `.properties` files, one edit per file and key. */
module Remediation {
  import opened Texts
  import opened Entries
  import opened PropertiesSyntax
  import opened PropertiesKeys
  import opened PropertiesFile
  import opened PropertiesRoundTrip
  import opened PropertiesLines

  // ------------------------------------------------------ the last entry of a key

  function RewriteLast(items: seq<Item>, key: Text, value: Text): seq<Item>
    requires HasKey(items, key)
  {
    var i := LastEntry(items, key);
    items[i := items[i].(value := value)]
  }

  method RewriteLastEntry(parsed: seq<Item>, key: Text, value: Text) returns (edited: seq<Item>)
    requires HasKey(parsed, key)
    ensures edited == RewriteLast(parsed, key, value)
  {
    edited := parsed;
    var i: int := |parsed| - 1;
    while i >= 0
      invariant -1 <= i < |parsed|
      invariant edited == parsed && LastEntry(parsed, key) <= i
    {
      if parsed[i].Entry? && parsed[i].key == key {
        edited := edited[i := parsed[i].(value := value)];
        return;
      }
      i := i - 1;
    }
  }

  /** With duplicate keys, rewriting the last entry is exactly an update of the dictionary. */
  lemma {:induction false} RewriteLastUpdates(items: seq<Item>, key: Text, value: Text)
    requires HasKey(items, key)
    ensures Translations(RewriteLast(items, key, value)) == Translations(items)[key := value]
  {
    var n := |items| - 1;
    var edited := RewriteLast(items, key, value);
    if items[n].Entry? && items[n].key == key {
      assert edited[..n] == items[..n];
    } else {
      assert items[..n][LastEntry(items, key)].key == key;
      RewriteLastUpdates(items[..n], key, value);
      assert edited[..n] == RewriteLast(items[..n], key, value);
      assert edited[n] == items[n];
    }
  }

  // -------------------------------------------------------- the edit on disk

  function RewriteText(text: Text, key: Text, value: Text): Text
    requires HasKey(ParseFile(text), key)
  {
    Reassemble(RewriteLast(ParseFile(text), key, value))
  }

  function ValuesOf(items: seq<Item>): (values: seq<Text>)
    ensures |values| == |items|
  {
    seq(|items|, i requires 0 <= i < |items| => if items[i].Entry? then items[i].value else [])
  }

  lemma {:induction false} EditedPointwise(items: seq<Item>, values: seq<Text>, edited: seq<Item>)
    requires |items| == |values| == |edited|
    requires forall i :: 0 <= i < |items| ==> edited[i] == WithValue(items[i], values[i])
    ensures Edited(items, values) == edited
  {
    if items != [] {
      EditedPointwise(items[1..], values[1..], edited[1..]);
    }
  }

  lemma {:induction false} SameViewsSameTranslations(a: seq<Item>, b: seq<Item>)
    requires Views(a) == Views(b)
    ensures Translations(a) == Translations(b)
  {
    assert |Views(a)| == |Views(b)|;
    if a != [] {
      var n := |a| - 1;
      ViewsOfInit(a);
      ViewsOfInit(b);
      ViewsAt(a, n);
      ViewsAt(b, n);
      SameViewsSameTranslations(a[..n], b[..n]);
    }
  }

  lemma {:induction false} ViewsOfInit(items: seq<Item>)
    requires items != []
    ensures Views(items[..|items| - 1]) == Views(items)[..|items| - 1]
  {
    var n := |items| - 1;
    forall i | 0 <= i < n ensures Views(items[..n])[i] == Views(items)[i] {
      ViewsAt(items[..n], i);
      ViewsAt(items, i);
    }
  }

  /** Rewriting the last entry of a key and reading the file again shows the same items with
      that one value changed, exactly when the edit survives; the dictionary is then updated
      at that key and nowhere else. */
  lemma {:induction false} RewriteOnDisk(text: Text, key: Text, value: Text)
    requires HasKey(ParseFile(text), key)
    ensures var items := ParseFile(text);
            Views(ParseFile(RewriteText(text, key, value))) == Views(RewriteLast(items, key, EscapeNewlines(value)))
            <==> EditSurvives(items[LastEntry(items, key)], value)
    ensures EditSurvives(ParseFile(text)[LastEntry(ParseFile(text), key)], value) ==>
              Translations(ParseFile(RewriteText(text, key, value)))
              == Translations(ParseFile(text))[key := EscapeNewlines(value)]
  {
    hide ParseFile, Reassemble, EditSurvives, EscapeNewlines, Edited, Escaped, Views, Translations, ParsedEntry;
    var items := ParseFile(text);
    var i := LastEntry(items, key);
    var values := ValuesOf(items)[i := value];
    FileEntriesAreParsed(text);
    EditedPointwise(items, values, RewriteLast(items, key, value));
    forall j | 0 <= j < |items|
      ensures RewriteLast(items, key, EscapeNewlines(value))[j] == WithValue(items[j], Escaped(values)[j])
      ensures j != i ==> EditSurvives(items[j], values[j])
    {
      EditedAt(items, values, j);
      UneditedSurvives(items[j]);
    }
    EditedPointwise(items, Escaped(values), RewriteLast(items, key, EscapeNewlines(value)));
    EditAndReparse(text, values);
    if EditSurvives(items[i], value) {
      SameViewsSameTranslations(ParseFile(RewriteText(text, key, value)),
          RewriteLast(items, key, EscapeNewlines(value)));
      RewriteLastUpdates(items, key, EscapeNewlines(value));
    }
  }

  lemma {:induction false} UneditedSurvives(item: Item)
    requires item.Entry? ==> ParsedEntry(item)
    ensures item.Entry? ==> EditSurvives(item, item.value) && EscapeNewlines(item.value) == item.value
    ensures item.Comment? ==> forall value :: EditSurvives(item, value)
  {
    if item.Entry? {
      NothingToEscape(item.value);
    }
  }

  // --------------------------------------------------------- the suggestion loop

  /** `suggested` is absent when the finding carries no string. */
  datatype Finding = Finding(isError: bool, suggested: Option<Text>, file: Text, key: Text)

  datatype Edit = Edit(file: Text, key: Text, value: Text)

  /** The deterministic checks on a suggestion, and the format's escaping. */
  datatype Policy = Policy(
    numbersFit: (Text, Text) -> bool,
    escape: (Text, Text) -> Text,
    controlFree: Text -> bool,
    parity: (Text, Text) -> bool)

  /** Why a finding may be applied to the files as they stand. */
  predicate Applicable(f: Finding, files: map<Text, Text>, sources: map<Text, map<Text, Text>>,
                       changed: set<(Text, Text)>, seen: set<(Text, Text)>, policy: Policy)
  {
    && f.isError
    && f.suggested.Some? && f.suggested.value != []
    && CARRIAGE_RETURN !in f.suggested.value && NEWLINE !in f.suggested.value
    && f.file != [] && f.key != [] && f.file in files
    && (f.file, f.key) in changed && (f.file, f.key) !in seen
    && f.key in Translations(ParseFile(files[f.file]))
    && f.file in sources && f.key in sources[f.file]
    && var source := sources[f.file][f.key];
       var escaped := policy.escape(source, f.suggested.value);
       policy.numbersFit(source, f.suggested.value) && policy.controlFree(escaped) && policy.parity(source, escaped)
  }

  function EditOf(f: Finding, sources: map<Text, map<Text, Text>>, policy: Policy): Edit
    requires f.suggested.Some? && f.file in sources && f.key in sources[f.file]
  {
    Edit(f.file, f.key, policy.escape(sources[f.file][f.key], f.suggested.value))
  }

  function ApplyEdit(files: map<Text, Text>, e: Edit): map<Text, Text> {
    if e.file in files && HasKey(ParseFile(files[e.file]), e.key)
    then files[e.file := RewriteText(files[e.file], e.key, e.value)] else files
  }

  function ApplyEdits(files: map<Text, Text>, edits: seq<Edit>): map<Text, Text> {
    if edits == [] then files
    else ApplyEdit(ApplyEdits(files, edits[..|edits| - 1]), edits[|edits| - 1])
  }

  predicate DistinctIdentities(edits: seq<Edit>) {
    forall i, j :: 0 <= i < j < |edits| ==> (edits[i].file, edits[i].key) != (edits[j].file, edits[j].key)
  }

  datatype Progress = Progress(files: map<Text, Text>, applied: seq<Edit>, skipped: seq<Finding>)

  function Identities(edits: seq<Edit>): set<(Text, Text)> {
    set e | e in edits :: (e.file, e.key)
  }

  /** What the findings must lead to: each is judged against the files and the identities as
      the earlier ones left them. */
  function Outcome(findings: seq<Finding>, files: map<Text, Text>, sources: map<Text, map<Text, Text>>,
                   changed: set<(Text, Text)>, policy: Policy): Progress
  {
    if findings == [] then Progress(files, [], [])
    else
      var p := Outcome(findings[..|findings| - 1], files, sources, changed, policy);
      var f := findings[|findings| - 1];
      if Applicable(f, p.files, sources, changed, Identities(p.applied), policy) then
        var e := EditOf(f, sources, policy);
        Progress(ApplyEdit(p.files, e), p.applied + [e], p.skipped)
      else Progress(p.files, p.applied, p.skipped + [f])
  }

  /** Every finding is applied or skipped; an identity is edited at most once and only when the
      change under review touched it; the files are the originals with the edits applied in turn. */
  method ApplySuggestions(findings: seq<Finding>, files: map<Text, Text>, sources: map<Text, map<Text, Text>>,
                          changed: set<(Text, Text)>, policy: Policy)
    returns (result: map<Text, Text>, applied: seq<Edit>, skipped: seq<Finding>)
    ensures Progress(result, applied, skipped) == Outcome(findings, files, sources, changed, policy)
    ensures |applied| + |skipped| == |findings|
    ensures DistinctIdentities(applied) && Identities(applied) <= changed
    ensures result == ApplyEdits(files, applied)
  {
    hide ParseFile, Reassemble, RewriteLast, HasKey, LastEntry, Translations, Applicable, EditOf, Identities,
      DistinctIdentities;
    NoIdentities();
    result, applied, skipped := files, [], [];
    var seen: set<(Text, Text)> := {};
    for n := 0 to |findings|
      invariant Progress(result, applied, skipped) == Outcome(findings[..n], files, sources, changed, policy)
      invariant |applied| + |skipped| == n
      invariant DistinctIdentities(applied) && seen == Identities(applied) && seen <= changed
      invariant result == ApplyEdits(files, applied)
    {
      var f := findings[n];
      assert findings[..n + 1][..n] == findings[..n];
      if !Applicable(f, result, sources, changed, seen, policy) {
        skipped := skipped + [f];
        continue;
      }
      ApplicableFinding(f, result, sources, changed, seen, policy);
      var e := EditOf(f, sources, policy);
      var parsed, translations := ParsePropertiesFile(result[f.file]);
      TranslationsKeys(parsed, f.key);
      var edited := RewriteLastEntry(parsed, f.key, e.value);
      var text := ReassembleFile(edited);
      result := result[f.file := text];
      seen := seen + {(f.file, f.key)};
      IdentitiesSnoc(applied, e);
      applied := applied + [e];
      assert applied[..|applied| - 1] + [e] == applied;
    }
    assert findings[..|findings|] == findings;
  }

  /** What a finding has to be for its suggestion to be applied, whatever came before it. */
  predicate Suits(f: Finding, sources: map<Text, map<Text, Text>>, changed: set<(Text, Text)>, policy: Policy) {
    && f.isError && f.file != [] && f.key != [] && (f.file, f.key) in changed
    && f.suggested.Some? && f.suggested.value != []
    && (forall i :: 0 <= i < |f.suggested.value| ==> f.suggested.value[i] !in {0x0A, 0x0D})
    && f.file in sources && f.key in sources[f.file]
    && var source, value := sources[f.file][f.key], f.suggested.value;
       && policy.numbersFit(source, value) && policy.controlFree(policy.escape(source, value))
       && policy.parity(source, policy.escape(source, value))
  }

  /** The next finding is applied exactly when it suits, its file then has the key, and the key was not
      edited before; otherwise it is skipped. */
  lemma {:induction false} NextFindingExactly(findings: seq<Finding>, f: Finding, files: map<Text, Text>,
                                              sources: map<Text, map<Text, Text>>, changed: set<(Text, Text)>,
                                              policy: Policy)
    ensures var before, after := Outcome(findings, files, sources, changed, policy),
            Outcome(findings + [f], files, sources, changed, policy);
            if Suits(f, sources, changed, policy) && f.file in before.files
               && HasKey(ParseFile(before.files[f.file]), f.key)
               && forall i :: 0 <= i < |before.applied| ==>
                    !(before.applied[i].file == f.file && before.applied[i].key == f.key)
            then && after.applied == before.applied
                      + [Edit(f.file, f.key, policy.escape(sources[f.file][f.key], f.suggested.value))]
                 && after.skipped == before.skipped
            else after.applied == before.applied && after.skipped == before.skipped + [f]
  {
    assert (findings + [f])[..|findings|] == findings;
    var before := Outcome(findings, files, sources, changed, policy);
    if f.file in before.files { TranslationsKeys(ParseFile(before.files[f.file]), f.key); }
    SuitsIsApplicable(f, before.files, sources, changed, Identities(before.applied), policy);
    IdentitiesHold(before.applied, f.file, f.key);
    hide Applicable, ParseFile, Translations, Identities, HasKey, ApplyEdit;
  }

  lemma {:induction false} IdentitiesHold(edits: seq<Edit>, file: Text, key: Text)
    ensures (file, key) in Identities(edits)
            <==> exists i :: 0 <= i < |edits| && edits[i].file == file && edits[i].key == key
  {
    if i :| 0 <= i < |edits| && edits[i].file == file && edits[i].key == key { assert edits[i] in edits; }
  }

  lemma {:induction false} SuitsIsApplicable(f: Finding, files: map<Text, Text>,
                                             sources: map<Text, map<Text, Text>>, changed: set<(Text, Text)>,
                                             seen: set<(Text, Text)>, policy: Policy)
    ensures Applicable(f, files, sources, changed, seen, policy)
            <==> && Suits(f, sources, changed, policy) && f.file in files && (f.file, f.key) !in seen
                 && f.key in Translations(ParseFile(files[f.file]))
  {
    hide ParseFile, Translations;
  }

  lemma {:induction false} NoIdentities()
    ensures Identities([]) == {} && DistinctIdentities([])
  {
  }

  lemma {:induction false} ApplicableFinding(f: Finding, files: map<Text, Text>, sources: map<Text, map<Text, Text>>,
                                             changed: set<(Text, Text)>, seen: set<(Text, Text)>, policy: Policy)
    requires Applicable(f, files, sources, changed, seen, policy)
    ensures f.suggested.Some? && f.file in files && f.key in Translations(ParseFile(files[f.file]))
    ensures f.file in sources && f.key in sources[f.file] && (f.file, f.key) in changed && (f.file, f.key) !in seen
    ensures EditOf(f, sources, policy).file == f.file && EditOf(f, sources, policy).key == f.key
  {
    hide ParseFile, Translations;
  }

  lemma {:induction false} IdentitiesSnoc(edits: seq<Edit>, e: Edit)
    ensures Identities(edits + [e]) == Identities(edits) + {(e.file, e.key)}
    ensures DistinctIdentities(edits) && (e.file, e.key) !in Identities(edits) ==> DistinctIdentities(edits + [e])
  {
    var all := edits + [e];
    assert forall x :: x in all <==> x in edits || x == e;
    if DistinctIdentities(edits) && (e.file, e.key) !in Identities(edits) {
      forall i, j | 0 <= i < j < |all| ensures (all[i].file, all[i].key) != (all[j].file, all[j].key) {
        assert all[i] in edits;
      }
    }
  }

  /** Each edit survives being written to the file as the earlier edits left it. */
  predicate EditsSurvive(files: map<Text, Text>, edits: seq<Edit>) {
    edits != [] ==>
      var e, before := edits[|edits| - 1], ApplyEdits(files, edits[..|edits| - 1]);
      && EditsSurvive(files, edits[..|edits| - 1])
      && e.file in before
      && var items := ParseFile(before[e.file]);
         HasKey(items, e.key) && EditSurvives(items[LastEntry(items, e.key)], e.value)
  }

  function EditedTranslations(translations: map<Text, Text>, edits: seq<Edit>, file: Text): map<Text, Text> {
    if edits == [] then translations
    else
      var before, e := EditedTranslations(translations, edits[..|edits| - 1], file), edits[|edits| - 1];
      if e.file == file then before[e.key := EscapeNewlines(e.value)] else before
  }

  /** Reading the files after any run of surviving edits shows exactly those edits, file by file. */
  lemma {:induction false} SurvivingEditsShow(files: map<Text, Text>, edits: seq<Edit>, file: Text)
    requires EditsSurvive(files, edits) && file in files
    ensures file in ApplyEdits(files, edits)
    ensures Translations(ParseFile(ApplyEdits(files, edits)[file]))
            == EditedTranslations(Translations(ParseFile(files[file])), edits, file)
  {
    hide ParseFile, RewriteText, HasKey, LastEntry, Translations, EditSurvives, EscapeNewlines;
    if edits != [] {
      var init, e := edits[..|edits| - 1], edits[|edits| - 1];
      SurvivingEditsShow(files, init, file);
      if e.file == file {
        RewriteOnDisk(ApplyEdits(files, init)[file], e.key, e.value);
      }
    }
  }

  const EXAMPLE_KEY: Rune := 0x6B
  const EXAMPLE_VALUE: Rune := 0x76

  /** `k v` on its line. */
  const EXAMPLE_TEXT: Text := [EXAMPLE_KEY] + [SPACE] + [EXAMPLE_VALUE] + [NEWLINE]

  /** A finding that suggests `=v` for the key `k`, and passes every check. */
  predicate ExampleFinding(f: Finding, sources: map<Text, map<Text, Text>>, changed: set<(Text, Text)>,
        policy: Policy) {
    var suggested := [EQUALS, EXAMPLE_VALUE];
    && f == Finding(true, Some(suggested), f.file, [EXAMPLE_KEY]) && f.file != [] && (f.file, f.key) in changed
    && f.file in sources && f.key in sources[f.file]
    && var source := sources[f.file][f.key];
       policy.escape(source, suggested) == suggested && policy.numbersFit(source, suggested)
       && policy.controlFree(suggested) && policy.parity(source, suggested)
  }

  /** A concrete edit that is lost: in a file that reads `k v`, the value `=v` is recorded as
      applied, is written after the whitespace separator, and comes back as `v`. */
  lemma {:induction false} LostEditExample(f: Finding, sources: map<Text, map<Text, Text>>, changed: set<(Text, Text)>,
        policy: Policy)
    requires ExampleFinding(f, sources, changed, policy)
    ensures var out := Outcome([f], map[f.file := EXAMPLE_TEXT], sources, changed, policy);
            && out.applied == [Edit(f.file, [EXAMPLE_KEY], [EQUALS, EXAMPLE_VALUE])] && out.skipped == []
            && out.files.Keys == {f.file}
            && Translations(ParseFile(out.files[f.file])) == map[[EXAMPLE_KEY] := [EXAMPLE_VALUE]]
  {
    var files := map[f.file := EXAMPLE_TEXT];
    ExampleParses();
    ExampleRewritten();
    ExampleApplies(f, files, sources, changed, policy);
    hide ParseFile, Translations, RewriteText, HasKey, Applicable, EditOf, Identities, ExampleFinding;
    NothingApplied(files, sources, changed, policy);
    assert [f][..0] == [] && [] + [EditOf(f, sources, policy)] == [EditOf(f, sources, policy)];
  }

  lemma {:induction false} NothingApplied(files: map<Text, Text>, sources: map<Text, map<Text, Text>>,
        changed: set<(Text, Text)>, policy: Policy)
    ensures Outcome([], files, sources, changed, policy) == Progress(files, [], [])
  {
  }

  lemma {:induction false} ExampleApplies(f: Finding, files: map<Text, Text>, sources: map<Text, map<Text, Text>>,
                                          changed: set<(Text, Text)>, policy: Policy)
    requires ExampleFinding(f, sources, changed, policy) && files == map[f.file := EXAMPLE_TEXT]
    requires Translations(ParseFile(EXAMPLE_TEXT)) == map[[EXAMPLE_KEY] := [EXAMPLE_VALUE]]
    ensures Applicable(f, files, sources, changed, Identities([]), policy)
    ensures EditOf(f, sources, policy) == Edit(f.file, [EXAMPLE_KEY], [EQUALS, EXAMPLE_VALUE])
  {
    hide ParseFile, Translations;
  }

  lemma {:induction false} ExampleParses()
    ensures ParseFile(EXAMPLE_TEXT)
            == [Entry([EXAMPLE_KEY], Some([EXAMPLE_KEY]), [SPACE], [EXAMPLE_VALUE], Some([EXAMPLE_VALUE]),
                EXAMPLE_TEXT)]
    ensures HasKey(ParseFile(EXAMPLE_TEXT), [EXAMPLE_KEY])
    ensures Translations(ParseFile(EXAMPLE_TEXT)) == map[[EXAMPLE_KEY] := [EXAMPLE_VALUE]]
  {
    LetterLine(EXAMPLE_KEY, SPACE, [EXAMPLE_VALUE]);
    hide ParseFile, Plain, UnescapeKey;
    PlainFileOfOne(SplitLine([EXAMPLE_KEY], [SPACE], [EXAMPLE_VALUE]));
    OneTranslation(ParseFile(EXAMPLE_TEXT)[0]);
  }

  /** `k =v` on its line is the key `k` with the value `v`. */
  lemma {:induction false} ExampleRewritten()
    requires HasKey(ParseFile(EXAMPLE_TEXT), [EXAMPLE_KEY])
    ensures Translations(ParseFile(RewriteText(EXAMPLE_TEXT, [EXAMPLE_KEY], [EQUALS, EXAMPLE_VALUE])))
            == map[[EXAMPLE_KEY] := [EXAMPLE_VALUE]]
  {
    hide ParseFile, Plain, UnescapeKey, Emit, Translations, Reassemble;
    ExampleParses();
    LetterLine(EXAMPLE_KEY, SPACE, [EXAMPLE_VALUE]);
    AbsorbingLine(EXAMPLE_KEY, [EXAMPLE_VALUE]);
    var s, now := SplitLine([EXAMPLE_KEY], [SPACE], [EXAMPLE_VALUE]),
        SplitLine([EXAMPLE_KEY], [SPACE, EQUALS], [EXAMPLE_VALUE]);
    var item := EntryOn(s, s.value, Unsplit(s) + [NEWLINE]);
    RewrittenFile(s, [EQUALS, EXAMPLE_VALUE], now);
    assert RewriteLast([item], [EXAMPLE_KEY], [EQUALS, EXAMPLE_VALUE]) == [item.(value := [EQUALS, EXAMPLE_VALUE])];
  }
}
