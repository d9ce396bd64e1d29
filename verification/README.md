# Verified model of the localization pipeline

The modules in this directory model the deterministic core of the localization pipeline and prove
properties of it with Dafny 4.11: the `.properties` and JSON codecs and the synchronisers around
them, the scanners of model output, placeholder protection, the translation memory, and the run of
one translation file from selection to publication with its ledger. `dafny verify dfyconfig.toml`
checks everything.

The main results:

- **Files.** The parser reads every file of an independent grammar as what its parts mean
  (`PropertiesBlocks`). A `.properties` file is reproduced byte for byte by an unmodified parse; edited
  values, and nothing else, show after writing and reading, exactly under a condition on separator, raw
  key and value (`PropertiesRoundTrip`, with appended entries and cut-off files in `PropertiesChanges`).
  Key synchronisation keeps lines and order (`KeySync`).
- **Documents.** Writing JSON leaves back path by path is a lens on the nested document (`JsonLens`);
  the merge takes the shape of the source and the strings of the target (`JsonSync`); the lexical
  scanners agree with the grammar of sections 4, 5 and 7 of RFC 8259 (`JsonScan`); keys are the JSON
  Pointers of sections 3 and 4 of RFC 6901 (`JsonPointer`).
- **Placeholders.** Sequential token replacement restores the text although tokens may touch
  anything (`Placeholders`).
- **Memory.** The mutable store refines a map from key to approved targets over every run (`Memory`).
- **Runs.** Told by the inputs alone: which keys a run selects (`RunSelection`), which it marks failed,
  how it ends (`RunExactness`), and what the memory learns (`RunMemory`). No silent regression, no lost
  retry, a ledger fixpoint, schedule independence, and a safety theorem over any number of runs, in the
  lines handed to the writer and, under an exact condition on what is written, in the file on disk
  (`RunSafety`, `RunFiles`, `LedgerFixpoint`, `LedgerFiles`, `Assembly`, `Runs`).

Text is a sequence of code points (`Texts.Rune`), lone surrogates included. Methods with loops follow
the source's loops and are proved against functions; lemmas then state what those functions do.
Automatic induction is switched off in every lemma, so a lemma's body is its whole proof. The
outside world - model and review answers, task completion order, git state, hashes, escaping,
placeholder, glossary and control-character checks inside a run - enters as arbitrary functions and
inputs, so the theorems about runs hold for all of them.

Where the code falls short of what its comments promise, the model follows the code, a lemma gives
an input, and a companion lemma says when the promise holds (exactly when, but for the order under
duplicate source keys and the counted tokens, where the condition is sufficient):

- a suggested value can be recorded as applied and be absorbed by a whitespace separator
  (`Remediation.LostEditExample`, `Remediation.RewriteOnDisk`);
- so can the answer of a review, which turns a localized value into its source unnoticed, and an
  answer that ends in a backslash takes the next entry with it (`RunExamples.AbsorbedAnswerRegresses`,
  `RunExamples.DanglingAnswerSwallows`, `RunFiles.PublishedFileReadsBack`);
- a key that starts with `#` or `!` is written as a comment (`PropertiesWriting.CommentKeyIsLost`,
  `PropertiesWriting.NewEntryReadsBack`);
- an inserted entry is swallowed by a last line that lacks its newline or waits for a continuation
  (`KeySyncFiles.MissingNewlineLosesAnEntry`, `KeySyncFiles.CutContinuationLosesAnEntry`,
  `KeySyncFiles.SynchronizedFileReadsBack`);
- a key that the source names twice is inserted out of order (`KeySync.DuplicateSourceLosesOrder`,
  `KeySync.SynchronizedOrder`);
- a translated key with an untranslated duplicate before it is selected again
  (`RunExamples.DuplicateIsSelectedAgain`, `LedgerFiles.NextRunOverTheFile`);
- the empty key escapes validation (`RunExamples.EmptyKeyRegresses`, `RunSafety.EmptyKeyRegression`);
- a key shared through different container kinds loses its translation unreported
  (`JsonSync.OtherKindIsPassedOver`, `JsonSync.TakenFromTarget`);
- an approved empty target is forgotten (`Memory.EmptyTargetIsForgotten`, `Memory.RecordAddsTarget`);
- counted placeholder tokens can collide with the text (`Placeholders.CountedTokenCollides`,
  `Placeholders.ProtectedTextIsRestored`).

What a run writes *fits* when `PropertiesChanges.WritesBack` holds: each changed value leaves its raw
key and separator as they are (the raw key does not end in an odd run of backslashes, nor does the
value; the value starts with no space, nor with `=` or `:` behind a separator of spaces), each new key
opens no comment and holds no surrogate pair, no value brings a carriage return, and nothing is
appended to a last line that lacks its newline or its continuation and stays as it is. What a key
synchronisation writes fits when `KeySyncFiles.SyncFits` holds. Each part can be checked on the lines
before they are written.

## Model

| member | source | states |
|---|---|---|
| `PropertiesSyntax.HasUnescapedTrailingBackslash` | localize/formats/properties.py:19-30 | the trailing-backslash loop decides parity: it answers true exactly for an odd run at the end |
| `PropertiesSyntax.BackslashCountBefore` | localize/formats/properties.py:33-39 | the backward loop counts exactly the run of backslashes that ends before an index |
| `PropertiesSyntax.ScanPropertyLine` | localize/formats/properties.py:150-194 | the index-driven scanner computes the split function, with no split where no unescaped separator stands |
| `PropertiesSyntax.SplitIsExact` | localize/formats/properties.py:150-194 | a line splits into key, separator and value if and only if it is their concatenation and they obey the grammar: no unescaped separator inside the key, a separator of spaces around at most one `=` or `:`, a value that starts with nothing the separator would have taken |
| `PropertiesKeys.StripUnescapedBoundaryWhitespace` | localize/formats/properties.py:46-64 | strips leading blanks and only those trailing blanks that are not escaped |
| `PropertiesEscapes.StripTakesAllBlanks` | localize/formats/properties.py:46-54 | what is stripped is whitespace that no backslash protects, at both ends, and all of it |
| `PropertiesKeys.CombineSurrogatePairs` | localize/formats/properties.py:67-81 | the loop joins surrogate pairs left to right |
| `PropertiesKeys.CombineFixpoints` | localize/formats/properties.py:67-81 | joining leaves a text alone if and only if it holds no high-low pair |
| `PropertiesKeys.CombineLeavesNoPair` | localize/formats/properties.py:67-81 | the joined text never holds a pair, so joining is idempotent |
| `PropertiesKeys.DecodeKey` | localize/formats/properties.py:84-129 | the decoding loop, with its letter, unicode and malformed escapes, computes the unescape function |
| `PropertiesKeys.EncodeKey` | localize/formats/properties.py:132-147 | the encoding loop computes the escape function |
| `PropertiesKeys.KeyCodec` | localize/formats/properties.py:84-147 | decoding an encoded key gives the key with its pairs joined, hence the key itself if and only if it holds no pair |
| `PropertiesKeys.DecodedKeysRoundTrip` | localize/formats/properties.py:84-147 | every key that decoding can produce survives encoding and decoding |
| `PropertiesEscapes.UnicodeEscapeDecodes` | localize/formats/properties.py:110-118 | behind a backslash and `u`, the four base-16 digits of a code unit, in either case and the highest first, decode to that unit, and decoding goes on behind them |
| `PropertiesEscapes.MalformedEscapeStays` | localize/formats/properties.py:110-123 | with fewer than four digits behind it, a backslash and `u` stay as they are spelled |
| `PropertiesEscapes.CharacterEscapes` | localize/formats/properties.py:94-127 | the letters t, n, f and r stand for their control characters, every other escaped character for itself, and a lone backslash at the end for nothing |
| `PropertiesEscapes.AsciiKeyDecodes` | localize/formats/properties.py:67-129 | a key with every UTF-16 code unit spelled as an escape decodes to the key with its pairs joined, hence to the key if and only if it holds no pair |
| `PropertiesKeys.EscapedKeyIsSealed` | localize/formats/properties.py:132-147 | an encoded key holds no unescaped separator or boundary blank and ends in an even run of backslashes |
| `PropertiesKeys.EncodedLineSplits` | localize/formats/properties.py:132-194 | encoded key, `=` and any value without leading space split exactly at that `=`, and only such values do |
| `PropertiesFile.AbsorbLines` | localize/formats/properties.py:207-286 | the continuation loop takes exactly the physical lines that belong to an entry and leaves a value ending in an even run of backslashes |
| `PropertiesFile.ParsePropertiesFile` | localize/formats/properties.py:197-286 | the parse loop terminates and computes items and the last-wins dictionary together |
| `PropertiesFile.ReassembleFile` | localize/formats/properties.py:289-322 | the writer emits untouched entries from their source text and rewritten ones as one line |
| `PropertiesRoundTrip.FileEntriesAreParsed` | localize/formats/properties.py:207-286 | every parsed entry satisfies the parser invariant: raw key decodes to the key, separator is well formed, the value has no newline, no leading space and no dangling backslash |
| `PropertiesBlocks.FileMeansItsBlocks` | localize/formats/properties.py:197-286 | against a grammar of files: every sequence of remarks, keys without a separator, and entries with any number of indented continuation lines is read as exactly what these mean, a continued value being its parts joined without their last backslashes |
| `PropertiesBlocks.EveryFileHasBlocks` | localize/formats/properties.py:197-286 | every text without carriage returns whose last line is ended and completed is such a sequence, so the grammar fixes the parser on all of them |
| `PropertiesRoundTrip.LineEndingsAreOne` | localize/formats/properties.py:207-208 | a carriage return, a newline, and the two together each end a line once |
| `PropertiesRoundTrip.ByteStability` | localize/formats/properties.py:197-322 | reassembling an unmodified parse gives the text back byte for byte if and only if it holds no carriage return; comments, malformed escapes, multi-line entries, a missing final newline and a cut-off continuation included |
| `PropertiesRoundTrip.EditAndReparse` | localize/formats/properties.py:207-322 | for every text and every assignment of new values, writing and parsing again shows the same comments, keys, raw keys, separators and order with exactly those values, if and only if each edit meets a condition on separator, raw key and value |
| `PropertiesRoundTrip.EditsAtLines` | localize/formats/properties.py:207-322 | the same equivalence on physical lines, entry by entry |
| `PropertiesWriting.AssembledFileReadsBack` | localize/formats/properties.py:289-322 | items that each read back on their own read back together, in any order and number |
| `PropertiesWriting.KeptItemsReadBack` | localize/formats/properties.py:289-322 | every untouched item of a file whose lines are all ended reads back where it is moved to |
| `PropertiesWriting.WrittenEntryReadsBack` | localize/formats/properties.py:299-322 | an entry that is spelled out reads back if and only if its raw key decodes to its key and is not dangling and the separator does not absorb the value |
| `PropertiesWriting.NewEntryReadsBack` | localize/formats/properties.py:132-147 | an appended key and value read back if and only if the key neither starts like a comment nor holds a surrogate pair and the value neither starts with space nor dangles |
| `PropertiesWriting.CommentKeyIsLost` | localize/formats/properties.py:132-147 | a key that starts with `#` or `!` always comes back as a comment |
| `PropertiesAssembly.AssembledExactly` | localize/formats/properties.py:289-322 | a file of kept lines and of lines the program spelled out shows what it was meant to show if and only if every one of them reads back on its own |
| `PropertiesAssembly.ParsedItemsRead` | localize/formats/properties.py:207-322 | every item of a parse reads back wherever it is moved, but for a last one, which does if and only if the file ended its last line and cut off no continuation |
| `PropertiesAssembly.AssembledBehindCutOff` | localize/formats/properties.py:207-322 | a file that keeps an item its old end cut off reads back if and only if every other item does and nothing was written behind it |
| `PropertiesChanges.ChangedFileReadsBack` | localize/formats/properties.py:207-322 | for every text, any changed values and any appended entries, the file read again shows exactly the changes if and only if each changed value fits behind its raw key and separator, each new key and value fits, none brings a carriage return, and nothing is written behind a last line that was cut off and stays as it is |
| `DiffLines.ExtractPropertiesEntry` | localize/semantic_quality.py:148-163 | the scan with a toggled flag finds the first `=` or `:` that backslash parity leaves unescaped |
| `DiffLines.AgreesWithParser` | localize/semantic_quality.py:148-163 | that position lies in the separator the file parser finds, if and only if the separator is not whitespace alone |
| `DiffLines.SameLinesAreComments` | localize/semantic_quality.py:148-151 | the diff reader passes over a line if and only if the file parser does: when it is blank or its first visible character is `#` or `!` |
| `DiffLines.WrittenLineInDiff` | localize/semantic_quality.py:148-163 | on a line written for a key and value, the diff reader finds that value and that key, the key if and only if it holds no backslash and no tab, newline, return or form feed |
| `Entries.TranslationsKeys` | localize/formats/properties.py:207-286 | the dictionary of a file holds exactly the keys with entries, each with the value of its last entry |
| `Remediation.RewriteLastEntry` | localize/semantic_remediation.py:228-233 | the backward loop rewrites the last entry of a key and nothing else |
| `Remediation.RewriteLastUpdates` | localize/semantic_remediation.py:228-233 | with any duplicates, rewriting the last entry is precisely the update of the dictionary at that key |
| `Remediation.RewriteOnDisk` | localize/semantic_remediation.py:224-240 | written and parsed again, the file shows that one change if and only if the edit survives, and then the dictionary changes at that key only |
| `Remediation.ApplySuggestions` | localize/semantic_remediation.py:126-252 | every finding is applied or skipped, at most one edit is applied for a file and key, and the files are the applied edits in order |
| `Remediation.NextFindingExactly` | localize/semantic_remediation.py:126-252 | a finding is applied, with its escaped suggestion, if and only if it is an error with a one-line suggestion for a changed key of a known source, passes the checks on numbers, control characters and placeholders, its file then has the key, and the key was not edited before |
| `Remediation.SurvivingEditsShow` | localize/semantic_remediation.py:126-252 | when each applied edit survives, the dictionary of every file is the old one with exactly its edits |
| `Remediation.LostEditExample` | localize/semantic_remediation.py:126-252 | a suggestion `=v` for an entry `k v` that passes every check is recorded as the one applied edit, and the file then gives `k` the value `v` |
| `KeySync.FindInsertionIndexForMissingKey` | localize/formats/validation.py:154-219 | the search with its three anchors computes the insertion index |
| `KeySync.SynchronizeKeys` | localize/formats/validation.py:222-293 | the loops with their in-place insertions compute the synchronised lines, the missing and the extra keys |
| `KeySync.SynchronizedKeepsLines` | localize/formats/validation.py:222-293 | the result has exactly the keys of the source; taking the added entries out gives back every comment and surviving target entry, unchanged and in order; the added ones carry the source value; a key is doubled if and only if the target doubled a surviving one or the source a missing one |
| `KeySync.AddedKeysFollowTheSource` | localize/formats/validation.py:154-293 | among the entries of the result, with distinct source keys, an added key stands right behind its predecessor in the source |
| `KeySync.PlacedBehindPredecessor` | localize/formats/validation.py:154-219 | behind the nearest source predecessor that is there, a new key stands behind comments only: as many as stand between the two in the source, or all there are |
| `KeySync.PlacedBeforeSuccessor` | localize/formats/validation.py:154-219 | without one, the same before the nearest successor |
| `KeySync.AddedCarriesSource` | localize/formats/validation.py:253-287 | an added entry carries raw key, separator and value of the last source entry of its key |
| `KeySync.SynchronizedOrder` | localize/formats/validation.py:154-293 | with distinct source keys, the entries stand in exactly the order of the source if and only if the common keys did |
| `KeySync.DuplicateSourceLosesOrder` | localize/formats/validation.py:253-287 | a source `b`, `a`, `b` and a target `a` give `a`, `b`, `b`: every occurrence is inserted at the place of the last one |
| `KeySyncFiles.SynchronizedFileReadsBack` | localize/formats/validation.py:222-293 | for every target and source text, the synchronised file reads back as the synchronised lines if and only if each added entry can be rewritten as one line and the target ended its last line and value, or lost its last item, or still has it last |
| `KeySyncFiles.SyncKeepsTranslation` | localize/formats/validation.py:222-293 | a key that target and source both have keeps its value in the synchronised lines, duplicates included |
| `KeySyncFiles.RewritableWhenParsed` | localize/formats/validation.py:240-293 | which parsed source entries those are: raw key not dangling, and no value starting with `=` or `:` after a separator of spaces |
| `KeySyncFiles.MissingNewlineLosesAnEntry` | localize/formats/validation.py:240-293 | a target `a=1` without its newline and a source with `a=1` and `b=2`: `b` is added, and the file read again has only `a`, with the text of `b` in its value |
| `KeySyncFiles.CutContinuationLosesAnEntry` | localize/formats/validation.py:240-293 | the same for a target whose last value ends in a continuation that the end of the file cuts off |
| `JsonPointer.SegmentRoundTrip` | localize/formats/adapters.py:158-163 | the two replacements each way, in opposite orders, give every segment back; an escaped segment holds no slash |
| `JsonPointer.SegmentIsEscaped` | localize/formats/adapters.py:158-159 | a tilde is written `~0`, a slash `~1`, and every other character as it is |
| `JsonPointer.PathRoundTrip` | localize/formats/adapters.py:166-175 | a path survives the conversion to a key and back if and only if it is not empty, empty segments included |
| `JsonPointer.DistinctPathsDistinctKeys` | localize/formats/adapters.py:166-175 | different non-empty paths never share a key |
| `JsonPointer.KeyRoundTrip` | localize/formats/adapters.py:166-175 | a key survives the conversion to a path and back if and only if its tildes are followed by 0 or 1 |
| `JsonLens.PutGet` | localize/formats/adapters.py:257-273 | a write that succeeds at a path is what is read at that path, on every document and path |
| `JsonLens.PutPut` | localize/formats/adapters.py:257-273 | a second write at a path overrides the first |
| `JsonFrame.PutFrame` | localize/formats/adapters.py:230-273 | a write changes nothing that is read at a path that parts from it, different numerals for one index told apart |
| `JsonFrame.PutSucceedsExactly` | localize/formats/adapters.py:241-273 | a write succeeds if and only if every list on the way is addressed by an index |
| `JsonFrame.MissingPathIsObjects` | localize/formats/adapters.py:253-273 | where a path leaves the document it is continued by objects, and what stood there gives way |
| `JsonLens.ContainerLens` | localize/formats/adapters.py:186-273 | writing the leaves of a document back one path at a time, with any values, equals the structural replacement of exactly those leaves |
| `JsonLens.WithLeavesKeepsShape` | localize/formats/adapters.py:186-221 | that replacement keeps keys, order, lengths, numbers, booleans and nulls, and its leaves carry the new values at the same paths |
| `JsonLens.LeafKeysAreDistinct` | localize/formats/adapters.py:186-221 | two string leaves of one document never have the same translation key |
| `JsonLens.ReassembleJsonFile` | localize/formats/adapters.py:314-321 | the write-back loop computes the writes in order and fails when one of them does |
| `JsonLens.JsonFileLens` | localize/formats/adapters.py:186-321 | parsing a document, giving its entries any values and reassembling never fails, keeps the shape, and parses to the same entries with those values |
| `JsonSync.SyncKeepsShape` | localize/formats/adapters.py:290-311 | the merge has the shape and key order of the source, whatever the target |
| `JsonSync.SyncedLeaves` | localize/formats/adapters.py:290-311 | leaf by leaf, the merge carries the target string reached through the same container kinds, and the source string otherwise |
| `JsonSync.SyncIsIdempotent` | localize/formats/adapters.py:290-311 | merging a document with itself changes nothing, and merging again with the result gives the result |
| `JsonSync.TakenFromTarget` | localize/formats/adapters.py:290-311 | a target string at the same path is taken over if and only if the containers on the way are of the same kind |
| `JsonSync.MissingKeysCarrySource` | localize/formats/adapters.py:324-344 | every key reported missing ends up with its source string |
| `JsonSync.SynchronizeJsonKeys` | localize/formats/adapters.py:324-344 | the synchronised file has exactly the keys of the source and the reported sets are the two differences |
| `JsonSync.OtherKindIsPassedOver` | localize/formats/adapters.py:290-311 | a key that source and target share, but through a list here and an object there, is not reported missing and yet loses its translation |
| `JsonScan.ExtractJsonObjectText` | localize/json_response.py:43-68 | the index loop with its depth, string and escape state returns the slice from the first brace to the first place where the depth outside strings returns to zero, or the text itself |
| `JsonScan.ExtractionIsExact` | localize/json_response.py:43-68 | for every printed object, any prefix without a left brace and any suffix, the scan returns exactly the object, whatever its strings hold |
| `JsonScan.ObjectClosesLast` | localize/json_response.py:43-68 | the scan of a printed object first returns to depth zero at its last character, so the slice is the shortest one |
| `JsonGuard.ExtractedExactly` | localize/json_response.py:43-68 | on any text: the slice runs from the first brace to the first place where braces outside strings are level again, and is the text itself when there is no such brace or place |
| `JsonScan.BoundJsonDepth` | localize/guardian/json_safety.py:34-57 | the character loop rejects a text exactly when the peak of its counter exceeds the limit |
| `JsonScan.ValueScan` | localize/guardian/json_safety.py:34-57 | on every printed value the scan rises by the nesting depth of the value and returns to where it was |
| `JsonScan.GuardIsExact` | localize/guardian/json_safety.py:34-57 | on every printed value between any blanks the counter peaks exactly at the nesting depth, ends at zero and never needs the saturating decrement, so the guard rejects exactly the values nested deeper than the limit |
| `JsonGuard.GuardOnAnyText` | localize/guardian/json_safety.py:34-57 | on any text, balanced or not: it is rejected if and only if some stretch of it opens more levels outside strings than it closes by more than the limit |
| `Placeholders.ProtectPlaceholders` | localize/formats/placeholders.py:133-158 | the substitution loop computes the protected text and the mapping |
| `Placeholders.RestorePlaceholders` | localize/formats/placeholders.py:161-170 | the replacement loop with its final check computes the restored text or the error |
| `Placeholders.PlaceholderRoundTrip` | localize/formats/placeholders.py:133-170 | text without `PH_` comes back unchanged and never meets the leftover error, for all disjoint spans, all distinct ids, and tokens that touch each other and any text |
| `Placeholders.ProtectedTextIsRestored` | localize/formats/placeholders.py:133-170 | the same for every text in which no id follows `PH_`; the leftover check then fails if and only if the text itself holds `__PH_` |
| `Placeholders.UnseenIdsRoundTrip` | localize/formats/placeholders.py:155-170 | ids that do not occur in the text, as random ones, restore it |
| `Placeholders.NextCounter` | localize/formats/placeholders.py:147-152 | the counter loop terminates and finds the next number whose token the text does not hold |
| `Placeholders.CountedIds` | localize/formats/placeholders.py:147-156 | counted tokens are distinct and use exactly the smallest free numbers, in order |
| `Placeholders.CountedTokenCollides` | localize/formats/placeholders.py:147-152 | the freedom test on whole tokens is too weak: a concrete text is restored to a different one without an error |
| `Memory.TranslationMemory.Lookup` | localize/translation_memory.py:77-97 | finds the target of a record that is neither in conflict nor of another context |
| `Memory.TranslationMemory.Record` | localize/translation_memory.py:99-145 | the whole store after recording: one record changed, as the abstract step says |
| `Memory.TranslationMemory.MergeFrom` | localize/translation_memory.py:195-228 | whatever the order of the incoming records, and also from itself: the merged store, and three counters that partition the incoming keys |
| `Memory.RecordAddsTarget` | localize/translation_memory.py:99-145 | a recorded target joins the set of approved targets and the record stays a conflict exactly for two or more, if and only if no empty target meets another on an active record |
| `Memory.PromoteResets` | localize/translation_memory.py:147-167 | promotion forgets what was recorded or in conflict under its key: its target is the only one approved, a lookup finds it unless it asks for another context, all other keys keep their answers |
| `Memory.MergeUnitesTargets` | localize/translation_memory.py:207-280 | merging two arbitrary records unites their targets, unless the existing one is active without a target and the other has one |
| `Memory.LookupIsAgreement` | localize/translation_memory.py:77-97 | a lookup answers a target if and only if it is the only one approved and the contexts do not differ |
| `Memory.EntryKeysAreDistinct` | localize/translation_memory.py:36-37 | two texts share a record if and only if format, locale and source hash agree |
| `Memory.ContextsAreKept` | localize/translation_memory.py:99-269 | recording binds a record to its context, promotion rebinds it, merging binds only what was unbound |
| `Memory.MetadataIsKept` | localize/translation_memory.py:99-269 | a new or promoted record carries where it came from; a recorded one keeps its metadata and takes a source it lacks; a merged one takes exactly the fields it lacks |
| `Memory.RecordThenLookup` | localize/translation_memory.py:77-145 | behind a recording, a lookup answers exactly the one target approved by then, unless the context it asks from is not the one the record is bound to |
| `Memory.RunRefinesSets` | localize/translation_memory.py:77-228 | over every sequence of record, promote and merge the store stands for a set of approved targets per key, and lookup depends on that set alone |
| `Memory.OrderIsIrrelevant` | localize/translation_memory.py:99-228 | records and merges in any order and multiplicity answer every lookup alike |
| `Memory.MergeIsUnion` | localize/translation_memory.py:195-228 | merging stores is the union of the approved sets, key by key |
| `Memory.CountedExactly` | localize/translation_memory.py:195-228 | a merged key is counted as imported when it is new, as a conflict when the two sides approve different targets, and as kept otherwise |
| `Memory.MergeLaws` | localize/translation_memory.py:195-228 | to lookups, merging is commutative, associative and idempotent |
| `Memory.EmptyTargetIsForgotten` | localize/translation_memory.py:141-145 | an approved empty target is dropped, so a target it conflicted with is reused again |
| `Normalizing.NormalizedIsCanonical` | localize/translate_localization_files.py:198-216 | a normalised value has no newline in either spelling, single spaces and solid ends; the values left alone are exactly those, so normalising is idempotent |
| `Normalizing.NormalizeSurvivesWriting` | localize/translate_localization_files.py:198-222 | a value normalises, compares and hashes the same after its newlines were written as escapes |
| `NormalForms.SameExactly` | localize/translate_localization_files.py:198-216 | two values normalise alike if and only if they have the same words once newlines and their escapes are spelled out, so the normal form is fixed by them |
| `NormalForms.BlankExactly` | localize/translate_localization_files.py:198-216 | a value is blank if and only if it has no words |
| `Ledgers.VerifiedExisting` | localize/translate_localization_files.py:225-244 | what a verified old translation guarantees: it is the value on disk, not blank, and not the source |
| `Ledgers.BuildFileKeyLedger` | localize/translate_localization_files.py:368-385 | the loop builds an entry with both hashes and the failed mark for each key |
| `Selection.ApplyIgnoredSourceValues` | localize/translate_localization_files.py:668-692 | forced lines and the dictionary are updated together and stay in step, duplicates included; the reported keys are those that changed |
| `Selection.ExtractTextsToTranslate` | localize/translate_localization_files.py:536-665 | the two loops compute the selected jobs |
| `Selection.SelectedKeysExact` | localize/translate_localization_files.py:536-665 | a key is selected if and only if one of its lines needs translation or the file lacks it and it is not ignored |
| `Selection.ExistingJobsExact` | localize/translate_localization_files.py:577-645 | jobs for lines come in line order, one for each line that needs translation |
| `Selection.NewJobsExact` | localize/translate_localization_files.py:647-665 | jobs for missing keys come in key order, once each, on the lines after the last |
| `Selection.FilterGitChangedKeysBySource` | localize/translate_localization_files.py:695-742 | the filter keeps exactly the keys whose target equals the source or whose source the ledger cannot show to be unchanged |
| `RunSelection.SelectionIsExact` | localize/translate_localization_files.py:2746-2793 | over all inputs of a run: a key is selected if and only if the source has it, it is not ignored, and the file lacks it or it is not accepted as is and was newly synchronised, or reported by git without a known source or with its source as value, or has a line that is blank, repeats the source where that is redone, failed, or whose hashes changed in the ledger |
| `Assembly.ApplyTranslationMemory` | localize/translate_localization_files.py:446-499 | splits the jobs into answers from memory and pending positions |
| `Assembly.MemoryPlanIsAPartition` | localize/translate_localization_files.py:446-499 | every position is answered from memory or pending, exactly one of the two |
| `Assembly.ReuseIsExact` | localize/translate_localization_files.py:446-499 | a memory whose conflicts are its ambiguous keys answers a job if and only if one target alone is approved for its text in this context, which is not the text itself, and the text is not accepted as is |
| `Assembly.CollectResults` | localize/translate_localization_files.py:2894-2931 | collecting in completion order, filling, repairing and sorting gives the collected results |
| `Assembly.EveryPositionAnsweredOnce` | localize/translate_localization_files.py:2894-2937 | for every subset of finished tasks, the sorted results carry each position exactly once, with its answer or the fallback for it |
| `Assembly.AnswerIsExact` | localize/translate_localization_files.py:225-275 | a good result is the answer as it is; in place of a failed or missing one stands the old translation whose hashes the ledger knows, or else the failed result, or the source |
| `Assembly.FailedKeysExact` | localize/translate_localization_files.py:2894-2937 | a key has failed if and only if one of its jobs has no good result |
| `Assembly.ScheduleIsIrrelevant` | localize/translate_localization_files.py:2907-2931 | two completion orders of the same results give the same sorted results |
| `Assembly.AssembleResults` | localize/translate_localization_files.py:2894-2937 | translations in job order and the set of failed keys |
| `Integration.IntegrateTranslations` | localize/translate_localization_files.py:2073-2116 | the loop computes the integrated lines |
| `Integration.IntegrationIsExact` | localize/translate_localization_files.py:2073-2116 | each translation stands on the line of its own key, each new key is appended once, and every other line is unchanged |
| `Integration.SelectedIsWellPlaced` | localize/translate_localization_files.py:577-665 | the jobs that selection makes name entries of their own key, and the lines after the last one by one |
| `Integration.IntegrationKeepsKeysDistinct` | localize/translate_localization_files.py:2073-2116 | a file with distinct keys keeps them distinct |
| `Reviewing.ApplyReviews` | localize/translate_localization_files.py:3042-3111 | the loop over chunks computes corrected values and failed keys from any answers |
| `Reviewing.ReviewStaysInScope` | localize/translate_localization_files.py:2995-3111 | exactly the reviewed keys get a corrected value, whatever keys an answer names, and only they can fail |
| `Reviewing.ChunksAreConsecutive` | localize/translate_localization_files.py:2995-3041 | the chunks joined are the reviewed keys, and all but the last are full |
| `Reviewing.ReviewFailsExactly` | localize/translate_localization_files.py:3042-3111 | a key fails in review if and only if some chunk that asks for it got no mapping, or a non-empty one without it |
| `Reviewing.LastChunkDecides` | localize/translate_localization_files.py:1779-1799 | a reviewed key takes the answer of the last chunk that asks for it, unless the answer breaks a glossary term that the draft keeps, and keeps the draft without an answer |
| `Reviewing.RunPerKeyValidation` | localize/translate_localization_files.py:1331-1485 | the loop computes validated values and failed keys |
| `Reviewing.VerdictIsSafe` | localize/translate_localization_files.py:1382-1485 | a key that passes is the candidate and no unaccepted echo; no value is blank for a source that is not; a value other than the source passed the control-character, glossary and placeholder checks; a failed key shows the source, its equal, or a verified old translation |
| `Reviewing.VerdictIsExact` | localize/translate_localization_files.py:1382-1485 | an ignored key shows its source; any other fails if and only if its candidate is blank for a source that is not, or repeats the source unaccepted where the key was selected or had a value of its own, or what is kept of it misses one of the three checks; kept is the candidate, or in place of such a repetition the old value whose hashes the ledger knows; the verdict is what is kept or else the source |
| `FileRun.ProcessFile` | localize/translate_localization_files.py:2732-3296 | the body of the queue loop, from selection to publication, and the memory it leaves |
| `FileRun.Conclude` | localize/translate_localization_files.py:3149-3277 | validation, the check for blocked regressions, and the published lines and ledger or the withheld ledger |
| `FileRun.PostValidate` | localize/translate_localization_files.py:1200-1317 | the final check parses the text that would be written and compares the keys it shares with the source, key by key, leaving out ignored and untouched keys, and the glossary where a value equals its source |
| `FileRun.UpdateTranslationMemory` | localize/translate_localization_files.py:502-533 | the memory after the validated translations of a run were recorded |
| `RunSafety.RunPublishes` | localize/translate_localization_files.py:2736-3277 | whatever model, memory and review answer, a run that publishes has changed values of selected keys only and added entries for them only, has an entry for each of them, published the verdict on each that has a name, blocked no failed key, passed the final check, and left the ledger of what it wrote; the results on publications below speak of every such run |
| `RunSafety.NoSilentRegression` | localize/translate_localization_files.py:3170-3240 | in every publication, the lines handed to the writer never give a localized key its source, unless the key is ignored, exactly accepted, or empty, and never leave it blank |
| `RunSafety.PublishedLines` | localize/translate_localization_files.py:2736-3240 | in the lines handed to the writer, outside the selected keys only forced entries change, to the source value; a selected entry changes nothing but its value; what is added are new entries of selected keys |
| `RunSafety.WithheldRetriesEverything` | localize/translate_localization_files.py:3207-3225 | a withheld file keeps every hash and marks every selected key, and all of them are selected again, whatever git and synchronisation report |
| `RunSafety.EmptyKeyIsNotValidated` | localize/translate_localization_files.py:3152-3178 | the empty key is the gap: its published value is the draft value, unchecked, and the ledger of a published file does not hold it |
| `RunSafety.EmptyKeyRegression` | localize/translate_localization_files.py:3152-3240 | in a published file a localized value under the empty key has become its source if and only if the review's value for it equals the source or, where it was not reviewed, the answer or fallback that was written on its last line does |
| `RunSafety.DraftValue` | localize/translate_localization_files.py:2938-3148 | the draft value of a key the file has is what the review made of it or else the answer for its last line, escaped |
| `RunExactness.ReviewIsEscaped` | localize/translate_localization_files.py:3046-3148 | what the review made of a key is its corrected value, escaped, and there is one for each key it was asked about |
| `RunExactness.NewKeyDraft` | localize/translate_localization_files.py:2938-3148 | and of a key the file lacks, the review or else the answer of its one job |
| `RunExactness.ReviewedExactly` | localize/translate_localization_files.py:2995-3041 | the review is asked for a key if and only if it was selected and answered |
| `RunExactness.GoodAnswersAreUsed` | localize/translate_localization_files.py:2855-2937 | a job that the memory answers, or the model answers well, has that answer in the draft |
| `RunExactness.FailedExactly` | localize/translate_localization_files.py:2894-3178 | a published run marks a named key failed if and only if it had no good answer, or the review failed it, or validation discards the value on offer or finds that it repeats the source |
| `RunExactness.EchoesAreMarked` | localize/translate_localization_files.py:3170-3240 | in every publication a selected named key that shows its source unaccepted is marked failed, and none is blank for a source that is not |
| `RunExactness.RunEnds` | localize/translate_localization_files.py:3149-3277 | a run with selected keys withholds the file if and only if a failed key would lose a value of its own to its source; otherwise it publishes if and only if the text can be encoded and every selected key it shows keeps its placeholders and, unless it equals its source, its glossary terms |
| `RunExactness.UnselectedEnds` | localize/translate_localization_files.py:2795-2830 | a run that selects nothing writes if and only if an ignored key does not show its source or was newly synchronised and the text can be encoded, and then sets exactly the ignored keys to their sources |
| `RunFiles.PublishedFileReadsBack` | localize/translate_localization_files.py:3226-3260 | a published file read again shows exactly the lines handed to the writer, if and only if every changed value and every new entry fits on its line |
| `RunFiles.PublishedFileLines` | localize/translate_localization_files.py:2736-3260 | the frame on disk, when what was written fits: an entry that was neither selected nor forced is read again exactly as it was, a selected one has changed only its value, new ones are of selected keys |
| `RunFiles.NoSilentRegressionOnDisk` | localize/translate_localization_files.py:3170-3260 | on disk, when what was written fits: a key whose value was localized still has a value that is no echo of its source, unless the key is ignored, exactly accepted, or empty |
| `RunExamples.AbsorbedAnswerRegresses` | localize/translate_localization_files.py:1283-1288 | where it does not fit: for a file `k v` whose source changed to `h` since the ledger entry, the review answers `=h`; no check objects, no key fails, the file is published, and on disk the localized value is the source |
| `RunExamples.DanglingAnswerSwallows` | localize/translate_localization_files.py:1252-1256 | where it does not fit: the review answers a value that ends in a backslash for one of two lines; the file is published without a failed key, and on disk the next entry, localized and not selected, is gone |
| `RunExamples.EmptyKeyRegresses` | localize/translate_localization_files.py:3152-3240 | a file `=v` whose source changed to `h` since the ledger entry: the model fails, the file is published, and on disk the localized value is the source |
| `LedgerFixpoint.SettledSelection` | localize/translate_localization_files.py:577-742 | for a key whose ledger entry matches its source, on any lines, duplicates included, and for every hash function: the next run selects it if and only if the file lacks it, or it is not accepted and it was newly synchronised, or failed, or git reports it with a value equal to its source, or a line of it is blank or looks untranslated where the published value did not |
| `LedgerFixpoint.UnknownSelection` | localize/translate_localization_files.py:577-742 | for a key without a ledger entry, as the empty key after a publication: it is selected if and only if the file lacks it, or it is not accepted and synchronisation or git reports it or a line of it is blank or is to be redone |
| `LedgerFixpoint.PublishedIsSettled` | localize/translate_localization_files.py:3236-3277 | in every published file the ledger entry of every key but the empty one holds the hashes of its source and its published value, duplicates or not |
| `LedgerFixpoint.UnselectedIsSettled` | localize/translate_localization_files.py:2795-2798 | so it does in every file that needed no translation, for the empty key too |
| `LedgerFixpoint.NextRunSelectsFailedKeys` | localize/translate_localization_files.py:577-742 | hence after a publication the next run selects exactly the failed keys, and of those not accepted the newly synchronised ones, the reported ones whose value equals their source and the ones with an earlier duplicate that looks untranslated |
| `LedgerFixpoint.TranslatedNeverEchoes` | localize/translate_localization_files.py:577-742 | a key that this run translated has no such duplicate, since all its entries were given one value |
| `LedgerFixpoint.DistinctKeysNeverEcho` | localize/translate_localization_files.py:577-742 | nor has any key of a file with distinct keys |
| `LedgerFixpoint.PublishedIsComplete` | localize/translate_localization_files.py:647-665 | every source key that is not ignored has an entry in the published file |
| `LedgerFiles.NextRunOverTheFile` | localize/translate_localization_files.py:2732-3277 | the same across the file, for every target text: lines published, written, read and parsed again, when what was written fits |
| `RunExamples.DuplicateIsSelectedAgain` | localize/translate_localization_files.py:605-628 | a file with `k=h` and then `k=v` whose source is `h`: a run that translates another key leaves a ledger on which the next run selects `k`, although it is translated and did not fail |
| `Runs.WrittenFileReadsBack` | localize/translate_localization_files.py:2795-3260 | every run that writes, publishing or passing through, leaves a file that shows its lines, if and only if what it writes fits |
| `Runs.TranslationsSurviveAllRuns` | localize/translate_localization_files.py:2732-3277 | over every sequence of runs on a file, each starting on the text the last one left once its keys were synchronised with the source file, with any answers, memories, git states and duplicates, as long as what is written fits: a value translated on disk never becomes its source |
| `RunMemory.OnlyPassedKeysAreRemembered` | localize/translate_localization_files.py:502-533 | only keys that passed are recorded, never blank, never an unaccepted echo |
| `RunMemory.MemoryLearnsExactly` | localize/translate_localization_files.py:502-533 | after a run the memory approves exactly what it approved before, the accepted sources, and, if the run published, what its selected keys passed with |
| `RunMemory.MemoryStaysClean` | localize/translate_localization_files.py:2756-3292 | a memory whose conflicts are exactly its ambiguous keys stays so over every run, however it ends |
| `Glossary.FindGlossaryMismatches` | localize/formats/validation.py:108-151 | a source and a target term are reported if and only if matches with both were selected and the target occurs fewer times than they are |
| `Glossary.SelectionIsSound` | localize/formats/validation.py:136-141 | the selected matches are disjoint, and every other match overlaps a selected one at least as long |
| `Glossary.SelectionIsExact` | localize/formats/validation.py:136-141 | told by positions: no two selected matches share one, and every other match shares one with a selected match that is longer, or as long and earlier, or of the same stretch and from an earlier term |
| `Glossary.RequiredCountsAddUp` | localize/formats/validation.py:143-146 | the required counts add up to the number of selected matches, pair by pair |
| `Glossary.GlossaryOrderIsIrrelevant` | localize/formats/validation.py:127-141 | unless two terms match the same stretch, the order of the glossary does not matter |
| `ReviewContext.SharedKeyPrefixLength` | localize/translate_localization_files.py:801-814 | the loop finds the longest common prefix of the dotted segments |
| `ReviewContext.SegmentsStandBetweenDots` | localize/translate_localization_files.py:801-814 | segments hold no dot, and joined by dots they are the key |
| `ReviewContext.CollectCandidates` | localize/translate_localization_files.py:844-866 | exactly the eligible keys related to a reviewed key, each with its strongest prefix and place in the file |
| `ReviewContext.SelectReviewContextKeys` | localize/translate_localization_files.py:817-884 | the selection is the greedy choice over the ranking, empty for empty or non-positive bounds; ranked are exactly the translated keys that are not excluded or reviewed and share a segment with a reviewed one, closer ones first, then earlier ones |
| `ReviewContext.LengthIsInBytes` | localize/translate_localization_files.py:866-880 | the length that is counted is the number of bytes of the text in UTF-8 |
| `ReviewContext.ExcerptLineSplits` | localize/formats/adapters.py:154-155 | a line of an excerpt splits into the encoded key and the value, unless the value starts with whitespace |
| `ReviewContext.ChosenIsBounded` | localize/translate_localization_files.py:866-884 | the chosen keys respect the cap and the combined byte limit and follow the ranking |
| `ReviewContext.ChosenIsMaximal` | localize/translate_localization_files.py:866-884 | unless the cap is reached, no candidate that was passed over fits beside the final selection |
| `ReviewContext.SizeIsMonotone` | localize/formats/adapters.py:154-155 | a serialised excerpt that is too large with a key stays too large when other keys join |

## Left out

- Files, folders, git, configuration, logging, metrics, reports, rate limits, prompts and provider calls: input and output only; the model works on text, dictionaries and lines.
- The dry-run switch, which only suppresses writing and memory updates.
- Line dictionaries and nested JSON containers are values that the loops replace in sequences and trees, so updates through a shared reference are not captured; the fields `line_number`, `original_value` and `was_multiline`, which no modelled code reads, are not kept.
- Model output inside a code fence: taking the fenced lines out of the answer is not modelled; the scan starts from the text that is left.
- Decoding itself: numbers are kept as text, and duplicate member names, which the decoder resolves before the modelled code runs, do not occur in a document tree.
- The placeholder and glossary patterns: spans and matches are inputs, disjoint and non-empty as a search yields them.
- SHA-256: any function of the normalised value; no result needs it to be injective.
- The order of sorted strings: new keys come in a given order of the source keys, and conflicting targets and reported pairs are sets.
- `JsonDocuments` list indices: does not model digits outside ASCII, which the index test also accepts.
- KeySync.SynchronizedOrder: asks for distinct source keys, without which it is false; `KeySync.DuplicateSourceLosesOrder` gives an input.
- KeySync.AddedKeysFollowTheSource: asks for distinct source keys, for the same reason.
- RunSafety.NoSilentRegression: excludes the empty key, for which it is false; `RunSafety.EmptyKeyRegression` says exactly when and `RunExamples.EmptyKeyRegresses` gives the run. It speaks of the lines handed to the writer; `RunFiles.NoSilentRegressionOnDisk` speaks of the file.
- RunFiles.NoSilentRegressionOnDisk: asks that all that is written fits, which is exact for the file as a whole and sufficient for one key.
- LedgerFixpoint.NextRunSelectsFailedKeys: leaves out the empty key, which the ledger of a published file does not hold, while the one of an unselected or withheld file does; `LedgerFixpoint.UnknownSelection` and `LedgerFixpoint.SettledSelection` cover it.
- Runs.TranslationsSurviveAllRuns: keeps the source file fixed over the sequence, because a changed source value changes what a regression is.
- Glossary.SelectionIsExact: asks for non-empty matches, as the search for a non-empty term yields them; `Glossary.SelectionIsSound` does not.
- Memory.RunRefinesSets: asks for non-empty targets, because an empty one that meets another is dropped; `Memory.RecordAddsTarget` gives the exact condition.
- Memory.EntryKeysAreDistinct: asks for formats and locales without a colon, which the record key does not escape.
- DiffLines.WrittenLineInDiff: leaves out keys that end in whitespace, whose last escape the diff reader strips away.
- Memory.MergeLaws: speaks of lookups without a context fingerprint, because merging keeps the first fingerprint and is not commutative on it.
- Placeholders.CountedIds: does not make counted ids safe for every text; `Placeholders.ProtectedTextIsRestored` asks that no id follows `PH_`.
- ReviewContext.SelectReviewContextKeys: models the `.properties` excerpts only, and counts three bytes for a lone surrogate, which the encoder would reject.
- FileRun.ProcessFile: takes the encoding checks of a written text and the reading back of the draft as arbitrary functions.
- The whole queue over several files, the semantic review rules, the linter and the Guardian beyond its depth scan: sums and wording, or tied to the operating system.
