/** The review of a draft in chunks, and the validation of each key that was translated. */
module Reviewing {
  import opened Texts
  import opened PropertiesFile
  import opened Entries
  import opened Ledgers
  import opened Normalizing

  // -------------------------------------------------------------------------- review

  /** What came back for a chunk: a mapping, or an exception, nothing, or something else. */
  datatype ChunkAnswer = Corrections(values: Values) | NoMapping

  /** `_prefer_glossary_compliant_draft` */
  function PreferredValue(p: Policy, source: Text, draft: Text, reviewed: Text): Text {
    if !p.glossaryKept(source, reviewed) && p.glossaryKept(source, draft) then draft else reviewed
  }

  function ReviewedValue(p: Policy, source: Values, draft: Values, answer: ChunkAnswer, key: Text): Text {
    if answer.Corrections? && key in answer.values
    then PreferredValue(p, Get(source, key), Get(draft, key), answer.values[key])
    else Get(draft, key)
  }

  /** An empty mapping approves the draft; otherwise a key without a value counts as failed. */
  predicate ReviewFails(answer: ChunkAnswer, key: Text) {
    answer.NoMapping? || (answer.values != map[] && key !in answer.values)
  }

  /** The keys in chunks of at most `size`. */
  function Chunks(keys: seq<Text>, size: nat): seq<seq<Text>>
    requires size > 0
    decreases |keys|
  {
    if keys == [] then []
    else if |keys| <= size then [keys]
    else [keys[..size]] + Chunks(keys[size..], size)
  }

  function ChunkValues(p: Policy, source: Values, draft: Values, chunk: seq<Text>, answer: ChunkAnswer): Values {
    map k | k in chunk :: ReviewedValue(p, source, draft, answer, k)
  }

  function ChunkFailures(chunk: seq<Text>, answer: ChunkAnswer): set<Text> {
    set k | k in chunk && ReviewFails(answer, k)
  }

  /** The corrected values after the first `n` chunks; a later chunk overrides an earlier one. */
  function Corrected(p: Policy, source: Values, draft: Values, chunks: seq<seq<Text>>, answers: nat -> ChunkAnswer,
        n: nat): Values
    requires n <= |chunks|
  {
    if n == 0 then map[]
    else Corrected(p, source, draft, chunks, answers, n - 1)
         + ChunkValues(p, source, draft, chunks[n - 1], answers(n - 1))
  }

  function ReviewFailures(chunks: seq<seq<Text>>, answers: nat -> ChunkAnswer, n: nat): set<Text>
    requires n <= |chunks|
  {
    if n == 0 then {}
    else ReviewFailures(chunks, answers, n - 1) + ChunkFailures(chunks[n - 1], answers(n - 1))
  }

  /** The answer to one chunk. */
  method ReviewChunk(p: Policy, source: Values, draft: Values, chunk: seq<Text>, answer: ChunkAnswer)
      returns (values: Values, failed: set<Text>)
    ensures values == ChunkValues(p, source, draft, chunk, answer)
    ensures failed == ChunkFailures(chunk, answer)
  {
    values, failed := map[], {};
    for i := 0 to |chunk|
      invariant forall k :: k in values <==> k in chunk[..i]
      invariant forall k :: k in values ==> values[k] == ReviewedValue(p, source, draft, answer, k)
      invariant forall k :: k in failed <==> k in chunk[..i] && ReviewFails(answer, k)
    {
      var key := chunk[i];
      assert chunk[..i + 1] == chunk[..i] + [key];
      match answer
      case NoMapping =>
        failed := failed + {key};
        values := values[key := Get(draft, key)];
      case Corrections(corrections) =>
        if key in corrections {
          values := values[key := PreferredValue(p, Get(source, key), Get(draft, key), corrections[key])];
        } else {
          if corrections != map[] {
            failed := failed + {key};
          }
          values := values[key := Get(draft, key)];
        }
    }
    assert chunk[..|chunk|] == chunk;
  }

  /** All answers, chunk by chunk. */
  method ApplyReviews(p: Policy, source: Values, draft: Values, chunks: seq<seq<Text>>, answers: nat -> ChunkAnswer)
      returns (corrected: Values, failed: set<Text>)
    ensures corrected == Corrected(p, source, draft, chunks, answers, |chunks|)
    ensures failed == ReviewFailures(chunks, answers, |chunks|)
  {
    hide ReviewedValue, ReviewFails;
    corrected, failed := map[], {};
    for n := 0 to |chunks|
      invariant corrected == Corrected(p, source, draft, chunks, answers, n)
      invariant failed == ReviewFailures(chunks, answers, n)
    {
      var values, missing := ReviewChunk(p, source, draft, chunks[n], answers(n));
      corrected := corrected + values;
      failed := failed + missing;
    }
  }

  lemma {:induction false} ChunksCover(keys: seq<Text>, size: nat, key: Text)
    requires size > 0
    ensures key in keys <==> exists n :: 0 <= n < |Chunks(keys, size)| && key in Chunks(keys, size)[n]
    ensures forall n :: 0 <= n < |Chunks(keys, size)| ==> 0 < |Chunks(keys, size)[n]| <= size
    decreases |keys|
  {
    if |keys| > size {
      ChunksCover(keys[size..], size, key);
      var rest, chunks := Chunks(keys[size..], size), Chunks(keys, size);
      assert keys == keys[..size] + keys[size..];
      assert chunks[0] == keys[..size] && forall n :: 0 <= n < |rest| ==> chunks[n + 1] == rest[n];
    } else if keys != [] {
      assert Chunks(keys, size)[0] == keys;
    }
  }

  lemma {:induction false} CorrectedKeys(p: Policy, source: Values, draft: Values, chunks: seq<seq<Text>>,
        answers: nat -> ChunkAnswer, n: nat, key: Text)
    requires n <= |chunks|
    ensures key in Corrected(p, source, draft, chunks, answers, n) <==> exists i :: 0 <= i < n && key in chunks[i]
    ensures key in ReviewFailures(chunks, answers, n) ==> exists i :: 0 <= i < n && key in chunks[i]
  {
    hide ReviewedValue, ReviewFails;
    if n > 0 {
      CorrectedKeys(p, source, draft, chunks, answers, n - 1, key);
    }
  }

  /** Exactly the reviewed keys get a corrected value, and only they can fail in review. */
  lemma {:induction false} ReviewStaysInScope(p: Policy, source: Values, draft: Values, keys: seq<Text>, size: nat,
        answers: nat -> ChunkAnswer, key: Text)
    requires size > 0
    ensures var chunks := Chunks(keys, size);
            && (key in Corrected(p, source, draft, chunks, answers, |chunks|) <==> key in keys)
            && (key in ReviewFailures(chunks, answers, |chunks|) ==> key in keys)
  {
    hide Corrected, ReviewFailures, Chunks;
    ChunksCover(keys, size, key);
    CorrectedKeys(p, source, draft, Chunks(keys, size), answers, |Chunks(keys, size)|, key);
  }

  /** A key fails in review exactly when some chunk that asks about it got no mapping, or a mapping
      that has keys but not this one. */
  lemma {:induction false} ReviewFailsExactly(chunks: seq<seq<Text>>, answers: nat -> ChunkAnswer, n: nat, key: Text)
    requires n <= |chunks|
    ensures key in ReviewFailures(chunks, answers, n)
            <==> exists i :: 0 <= i < n && key in chunks[i]
                             && (answers(i).NoMapping? || (answers(i).values != map[] && key !in answers(i).values))
  {
    if n > 0 {
      ReviewFailsExactly(chunks, answers, n - 1, key);
    }
  }

  /** A reviewed key takes the answer of the last chunk that asks about it, unless the answer breaks a
      glossary term that the draft keeps; without an answer the draft stays. */
  lemma {:induction false} LastChunkDecides(p: Policy, source: Values, draft: Values, chunks: seq<seq<Text>>,
        answers: nat -> ChunkAnswer, last: nat, n: nat, key: Text)
    requires last < n <= |chunks| && key in chunks[last] && forall i :: last < i < n ==> key !in chunks[i]
    requires key in source && key in draft
    ensures key in Corrected(p, source, draft, chunks, answers, n)
    ensures var reviewed := Corrected(p, source, draft, chunks, answers, n)[key];
            match answers(last)
            case NoMapping => reviewed == draft[key]
            case Corrections(values) =>
              if key !in values then reviewed == draft[key]
              else if p.glossaryKept(source[key], values[key]) then reviewed == values[key]
              else reviewed == if p.glossaryKept(source[key], draft[key]) then draft[key] else values[key]
  {
    LastChunkValue(p, source, draft, chunks, answers, last, n, key);
    hide Corrected;
  }

  lemma {:induction false} LastChunkValue(p: Policy, source: Values, draft: Values, chunks: seq<seq<Text>>,
        answers: nat -> ChunkAnswer, last: nat, n: nat, key: Text)
    requires last < n <= |chunks| && key in chunks[last] && forall i :: last < i < n ==> key !in chunks[i]
    ensures key in Corrected(p, source, draft, chunks, answers, n)
    ensures Corrected(p, source, draft, chunks, answers, n)[key]
            == ReviewedValue(p, source, draft, answers(last), key)
  {
    hide ReviewedValue;
    if last < n - 1 {
      LastChunkValue(p, source, draft, chunks, answers, last, n - 1, key);
    }
  }

  function Joined(chunks: seq<seq<Text>>): seq<Text> {
    if chunks == [] then [] else chunks[0] + Joined(chunks[1..])
  }

  /** Chunks cut the keys where they stand: joined they are the keys, and all but the last are full. */
  lemma {:induction false} ChunksAreConsecutive(keys: seq<Text>, size: nat)
    requires size > 0
    ensures Joined(Chunks(keys, size)) == keys
    ensures forall n :: 0 <= n < |Chunks(keys, size)| - 1 ==> |Chunks(keys, size)[n]| == size
    decreases |keys|
  {
    if |keys| > size {
      var rest := Chunks(keys[size..], size);
      ChunksAreConsecutive(keys[size..], size);
      assert Chunks(keys, size) == [keys[..size]] + rest;
      hide Chunks, Joined;
      JoinedCons(keys[..size], rest);
      assert keys == keys[..size] + keys[size..];
    } else if keys != [] {
      JoinedCons(keys, []);
    }
  }

  lemma {:induction false} JoinedCons(chunk: seq<Text>, chunks: seq<seq<Text>>)
    ensures Joined([chunk] + chunks) == chunk + Joined(chunks)
    ensures Joined([chunk]) == chunk
  {
    assert ([chunk] + chunks)[1..] == chunks && [chunk][1..] == [];
  }

  // ---------------------------------------------------------------------- validation

  datatype Verdict = Verdict(value: Text, failed: bool)

  predicate Localized(source: Values, existing: Values, key: Text) {
    key in existing && NonBlank(existing[key]) && !Same(existing[key], Get(source, key))
  }

  /** A translation that merely repeats the source where that is neither accepted nor old. */
  predicate EchoesSource(p: Policy, existing: Values, source: Values, selected: set<Text>, key: Text, target: Text) {
    && NonBlank(Get(source, key)) && Same(Get(source, key), target) && !p.Accepts(key, Get(source, key), target)
    && (key in selected || Localized(source, existing, key))
  }

  /** The validated value of one key, and whether the key failed. */
  function Judged(p: Policy, source: Values, existing: Values, ledger: Ledger, selected: set<Text>, key: Text,
        target: Text): Verdict {
    var s := Get(source, key);
    if p.ignored(key) then Verdict(s, false)
    else if NonBlank(s) && !NonBlank(target) then Verdict(s, true)
    else
      var verified := VerifiedExisting(p, key, source, existing, ledger);
      var echo := EchoesSource(p, existing, source, selected, key, target);
      var t := if echo && verified.Some? then verified.value else target;
      if !p.controlFree(t) || !p.glossaryKept(s, t) || !p.placeholdersKept(s, t) then Verdict(s, true)
      else Verdict(t, echo)
  }

  function ValidValues(p: Policy, source: Values, existing: Values, ledger: Ledger, selected: set<Text>,
        final: Values): Values {
    map k | k in final :: Judged(p, source, existing, ledger, selected, k, final[k]).value
  }

  function InvalidKeys(p: Policy, source: Values, existing: Values, ledger: Ledger, selected: set<Text>,
        final: Values): set<Text> {
    set k | k in final && Judged(p, source, existing, ledger, selected, k, final[k]).failed
  }

  /** The keys outside `todo` are validated. */
  ghost predicate Validated(p: Policy, source: Values, existing: Values, ledger: Ledger, selected: set<Text>,
        final: Values,
                            todo: set<Text>, valid: Values, failed: set<Text>)
  {
    && (forall k :: k in valid <==> k in final && k !in todo)
    && (forall k :: k in valid ==> valid[k] == Judged(p, source, existing, ledger, selected, k, final[k]).value)
    && (forall k :: k in failed <==> k in valid && Judged(p, source, existing, ledger, selected, k, final[k]).failed)
  }

  lemma {:induction false} ValidatedStep(p: Policy, source: Values, existing: Values, ledger: Ledger,
        selected: set<Text>, final: Values,
                      todo: set<Text>, valid: Values, failed: set<Text>, key: Text)
    requires Validated(p, source, existing, ledger, selected, final, todo, valid, failed)
    requires key in todo && key in final
    ensures var v := Judged(p, source, existing, ledger, selected, key, final[key]);
            Validated(p, source, existing, ledger, selected, final, todo - {key}, valid[key := v.value],
                      if v.failed then failed + {key} else failed)
  {
    hide Judged;
  }

  lemma {:induction false} AllJudged(p: Policy, source: Values, existing: Values, ledger: Ledger, selected: set<Text>,
        final: Values,
                  valid: Values, failed: set<Text>)
    requires Validated(p, source, existing, ledger, selected, final, {}, valid, failed)
    ensures valid == ValidValues(p, source, existing, ledger, selected, final)
    ensures failed == InvalidKeys(p, source, existing, ledger, selected, final)
  {
    hide Judged;
  }

  lemma {:induction false} NothingValidated(p: Policy, source: Values, existing: Values, ledger: Ledger,
        selected: set<Text>, final: Values)
    ensures Validated(p, source, existing, ledger, selected, final, final.Keys, map[], {})
  {
    hide Judged;
  }

  /** `run_per_key_validation_with_summary` */
  method RunPerKeyValidation(p: Policy, source: Values, existing: Values, ledger: Ledger, selected: set<Text>,
        final: Values)
      returns (valid: Values, failed: set<Text>)
    ensures valid == ValidValues(p, source, existing, ledger, selected, final)
    ensures failed == InvalidKeys(p, source, existing, ledger, selected, final)
  {
    hide Judged, ValidValues, InvalidKeys, Validated;
    valid, failed := map[], {};
    var todo := final.Keys;
    NothingValidated(p, source, existing, ledger, selected, final);
    while todo != {}
      invariant todo <= final.Keys
      invariant Validated(p, source, existing, ledger, selected, final, todo, valid, failed)
      decreases |todo|
    {
      var key :| key in todo;
      ValidatedStep(p, source, existing, ledger, selected, final, todo, valid, failed, key);
      var value, fails := ValidateKey(p, source, existing, ledger, selected, key, final[key]);
      valid := valid[key := value];
      if fails {
        failed := failed + {key};
      }
      todo := todo - {key};
    }
    AllJudged(p, source, existing, ledger, selected, final, valid, failed);
  }

  method ValidateKey(p: Policy, source: Values, existing: Values, ledger: Ledger, selected: set<Text>, key: Text,
        target: Text)
      returns (value: Text, failed: bool)
    ensures Verdict(value, failed) == Judged(p, source, existing, ledger, selected, key, target)
  {
    hide Normalize, NonBlank, VerifiedExisting;
    var s := Get(source, key);
    if p.ignored(key) {
      return s, false;
    }
    if NonBlank(s) && !NonBlank(target) {
      return s, true;
    }
    var t := target;
    failed := false;
    if NonBlank(s) && Same(s, target) && !p.Accepts(key, s, target)
       && (key in selected || (key in existing && NonBlank(existing[key]) && !Same(existing[key], s)))
    {
      failed := true;
      var verified := VerifiedExisting(p, key, source, existing, ledger);
      if verified.Some? {
        t := verified.value;
      }
    }
    if !p.controlFree(t) {
      return s, true;
    }
    if !p.glossaryKept(s, t) {
      return s, true;
    }
    if p.placeholdersKept(s, t) {
      return t, failed;
    }
    return s, true;
  }

  /** What a verdict guarantees. A key that passes is never an unaccepted echo of the source, a
      value is never blank for a source that is not, it is free of control characters and keeps
      glossary and placeholders unless it is the source itself, and it comes from nowhere but the
      candidate, the source, or a verified old translation, which only stands in for an echo. */
  lemma {:induction false} VerdictIsSafe(p: Policy, source: Values, existing: Values, ledger: Ledger,
        selected: set<Text>, key: Text, target: Text)
    requires !p.ignored(key)
    ensures var v, s := Judged(p, source, existing, ledger, selected, key, target), Get(source, key);
            && (!v.failed ==> v.value == target && !EchoesSource(p, existing, source, selected, key, v.value))
            && (NonBlank(s) ==> NonBlank(v.value))
            && (v.value == s || (p.controlFree(v.value) && p.glossaryKept(s, v.value)
               && p.placeholdersKept(s, v.value)))
            && (v.value == s || v.value == target || VerifiedExisting(p, key, source, existing, ledger)
               == Some(v.value))
            && (v.failed && !Same(v.value, s) ==> EchoesSource(p, existing, source, selected, key, target)
                                                  && VerifiedExisting(p, key, source, existing, ledger)
                                                     == Some(v.value))
  {
    hide Normalize, NonBlank;
  }

  // ----------------------------------------------------- the verdict, told by its inputs

  /** The value equals the source in its normal form, without being the accepted copy of it. */
  predicate Repeats(p: Policy, key: Text, source: Text, value: Text) {
    && NonBlank(source) && Normalize(value) == Normalize(source)
    && !(value == source && key in p.accepted && p.accepted[key] == source)
  }

  /** The file already has a value of its own for the key. */
  predicate HadOwnValue(source: Text, existing: Values, key: Text) {
    key in existing && NonBlank(existing[key]) && Normalize(existing[key]) != Normalize(source)
  }

  /** The ledger knows both the source and that value. */
  predicate Known(p: Policy, source: Text, existing: Values, ledger: Ledger, key: Text)
    requires key in existing
  {
    && key in ledger && ledger[key].sourceHash == Some(p.hash(Normalize(source)))
    && ledger[key].targetHash == Some(p.hash(Normalize(existing[key])))
  }

  predicate Unwanted(p: Policy, source: Text, existing: Values, selected: set<Text>, key: Text, target: Text) {
    Repeats(p, key, source, target) && (key in selected || HadOwnValue(source, existing, key))
  }

  predicate Checked(p: Policy, source: Text, value: Text) {
    p.controlFree(value) && p.glossaryKept(source, value) && p.placeholdersKept(source, value)
  }

  /** The candidate or, where it only repeats the source, the value the file had and the ledger knows. */
  function Kept(p: Policy, source: Text, existing: Values, ledger: Ledger, selected: set<Text>, key: Text,
        target: Text): Text
  {
    if Unwanted(p, source, existing, selected, key, target) && HadOwnValue(source, existing, key)
       && Known(p, source, existing, ledger, key)
    then existing[key] else target
  }

  /** Nothing of the candidate is kept: it is blank for a source that is not, or misses a check. */
  predicate Discards(p: Policy, source: Text, existing: Values, ledger: Ledger, selected: set<Text>, key: Text,
        target: Text)
  {
    || (NonBlank(source) && !NonBlank(target))
    || !Checked(p, source, Kept(p, source, existing, ledger, selected, key, target))
  }

  /** An ignored key shows its source and never fails. Any other key fails exactly when its candidate is
      discarded or repeats the source unwanted, and shows the source when its candidate is discarded, or
      else what is kept. */
  lemma {:induction false} VerdictIsExact(p: Policy, source: Values, existing: Values, ledger: Ledger,
        selected: set<Text>, key: Text, target: Text)
    ensures var v, s := Judged(p, source, existing, ledger, selected, key, target),
            if key in source then source[key] else [];
            && (v.failed <==> !p.ignored(key)
                              && (Discards(p, s, existing, ledger, selected, key, target)
                                  || Unwanted(p, s, existing, selected, key, target)))
            && v.value == (if p.ignored(key) || Discards(p, s, existing, ledger, selected, key, target) then s
                           else Kept(p, s, existing, ledger, selected, key, target))
  {
    NothingIsBlank();
    hide Normalize, NonBlank;
  }

  lemma {:induction false} NothingIsBlank()
    ensures !NonBlank([])
  {
  }
}
