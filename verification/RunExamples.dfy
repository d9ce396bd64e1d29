/** Concrete runs in which a file comes out other than its lines promised. */
module RunExamples {
  import opened Texts
  import opened PropertiesSyntax
  import opened PropertiesKeys
  import opened PropertiesFile
  import opened PropertiesRoundTrip
  import opened PropertiesLines
  import opened PropertiesChanges
  import opened Entries
  import opened Normalizing
  import opened Ledgers
  import opened Selection
  import opened Reviewing
  import opened FileRun
  import opened RunSafety
  import opened RunFiles
  import opened LedgerFixpoint
  import opened LedgerFiles
  import opened LoneRuns

  const A: Rune := 0x61
  const B: Rune := 0x62
  const H: Rune := 0x68
  const K: Rune := 0x6B
  const U: Rune := 0x75
  const V: Rune := 0x76

  /** Text without whitespace whose backslashes, if any, stand last. */
  predicate Word(t: Text) {
    t != [] && (forall i :: 0 <= i < |t| ==> !IsSpace(t[i])) && forall i :: 0 <= i < |t| - 1 ==> t[i] != BACKSLASH
  }

  lemma {:induction false} WordsDiffer(s: Text, t: Text)
    requires Word(s) && Word(t) && s != t
    ensures !Same(s, t) && NonBlank(s) && NonBlank(t)
  {
    NormalizedIsCanonical(s);
    NormalizedIsCanonical(t);
    hide Normalize;
    assert s[0] != SPACE && t[0] != SPACE;
    assert Canonical(s) && Canonical(t);
    assert !AllSpace(s) && !AllSpace(t);
  }

  lemma {:induction false} VAndHDiffer()
    ensures !Same([V], [H]) && !Same([H], [V]) && NonBlank([V]) && NonBlank([H])
  {
    assert Word([V]) && Word([H]);
    WordsDiffer([V], [H]);
  }

  // ------------------------------------------------------------ files of one line

  /** A file of one line whose value is `v`; its source has become `h`, and the ledger still holds the
      hash of another source. Neither git nor synchronization reports anything. */
  ghost predicate StaleFile(p: Policy, inp: Inputs, line: SplitLine, stale: Hash) {
    && inp.lines == ParseFile(Unsplit(line) + [NEWLINE]) && Sane(inp)
    && inp.source == map[UnescapeKey(line.key) := [H]] && inp.added == {} && inp.changed == {}
    && inp.ledger == map[UnescapeKey(line.key) := LedgerEntry(Some(stale), Some(p.HashOf([V])), false)]
       && stale != p.HashOf([H])
  }

  lemma {:induction false} StaleJob(p: Policy, inp: Inputs, line: SplitLine, stale: Hash)
    requires Lenient(p) && StaleFile(p, inp, line, stale) && Whole(line) && line.value == [V]
    ensures inp.lines == [EntryOn(line, [V], Unsplit(line) + [NEWLINE])]
    ensures LoneJob(p, inp, 0, UnescapeKey(line.key)) && NonBlank([H])
    ensures Localized(inp.source, Translations(inp.lines), UnescapeKey(line.key))
  {
    hide ParseFile, UnescapeKey, Unsplit, Whole, Normalize, NonBlank, Translations, Lenient, JobsOf;
    PlainFileOfOne(line);
    VAndHDiffer();
    QuietContext(p, inp);
    OneTranslation(inp.lines[0]);
    StalePicks(p, inp, stale);
    JobsAre(p, inp);
    OnlyJob(ContextOf(p, inp), inp.lines, inp.order, 0);
  }

  lemma {:induction false} StalePicks(p: Policy, inp: Inputs, stale: Hash)
    requires Lenient(p) && |inp.lines| == 1 && inp.lines[0].Entry? && inp.source.Keys == {inp.lines[0].key}
    requires EntryOf(inp.ledger, inp.lines[0].key).sourceHash == Some(stale)
             && stale != p.HashOf(inp.source[inp.lines[0].key])
    ensures PicksOnly(Context(p, inp.source, {}, inp.ledger, {}), inp.lines, 0)
  {
    hide Normalize, NonBlank, EntryOf;
    assert HasKey(inp.lines, inp.lines[0].key);
  }

  const SPACED: SplitLine := SplitLine([K], [SPACE], [V])
  const ABSORBED: SplitLine := SplitLine([K], [SPACE, EQUALS], [H])

  /** For the line `k v`, the review answers `=h`: no check objects, the file is published, no key
      failed, and on disk the localized value has become its source. */
  lemma {:induction false} AbsorbedAnswerRegresses(p: Policy, inp: Inputs, w: World, stale: Hash)
    requires Lenient(p) && StaleFile(p, inp, SPACED, stale)
    requires Replies(w, [K], Some([EQUALS, H])) && forall text :: w.encoded(text)
    ensures Localized(inp.source, Translations(inp.lines), [K])
    ensures var out := RunFile(p, inp, w, None);
            out.Published? && out.failed == {} && Translations(OnDisk(out.lines)) == inp.source
  {
    hide ParseFile, Unsplit, UnescapeKey, NonBlank, Same, Translations, Lenient, LoneJob, Replies, RunFile, Localized,
      Sane, EntryOn,
      Reassemble, Plain;
    LetterLine(K, SPACE, [V]);
    AbsorbingLine(K, [H]);
    StaleJob(p, inp, SPACED, stale);
    assert Word([H]) && Word([EQUALS, H]);
    WordsDiffer([H], [EQUALS, H]);
    LoneRun(p, inp, w, 0, [K], [EQUALS, H]);
    PartsOf(ABSORBED);
    RewrittenFile(SPACED, [EQUALS, H], ABSORBED);
    assert LineWith(inp.lines, 0, [EQUALS, H]) == [inp.lines[0].(value := [EQUALS, H])];
  }

  lemma {:induction false} PartsOf(s: SplitLine)
    ensures Unsplit(s) == s.key + s.separator + s.value
  {
  }

  const NAMELESS: SplitLine := SplitLine([], [EQUALS], [V])
  const SOURCE_LINE: SplitLine := SplitLine([], [EQUALS], [H])

  /** For the line `=v`, the model fails: the source is written over the localized value, no check sees
      it, and the file is published with it. */
  lemma {:induction false} EmptyKeyRegresses(p: Policy, inp: Inputs, w: World, stale: Hash)
    requires Lenient(p) && StaleFile(p, inp, NAMELESS, stale) && w.completed == [] && forall text :: w.encoded(text)
    ensures Localized(inp.source, Translations(inp.lines), [])
    ensures var out := RunFile(p, inp, w, None);
            out.Published? && out.failed == {[]} && Translations(OnDisk(out.lines)) == inp.source
  {
    hide ParseFile, Unsplit, UnescapeKey, NonBlank, Same, Translations, Lenient, LoneJob, RunFile, Localized, Sane,
      EntryOn, Reassemble, Plain;
    NamelessLine([V]);
    NamelessLine([H]);
    StaleJob(p, inp, NAMELESS, stale);
    NamelessRun(p, inp, w, 0);
    PartsOf(SOURCE_LINE);
    RewrittenFile(NAMELESS, [H], SOURCE_LINE);
    assert LineWith(inp.lines, 0, [H]) == [inp.lines[0].(value := [H])];
  }

  // ------------------------------------------------------------ files of several lines

  const FIRST: SplitLine := SplitLine([A], [EQUALS], [V])
  const SECOND: SplitLine := SplitLine([B], [EQUALS], [V])
  const DANGLING: SplitLine := SplitLine([A], [EQUALS], [U, BACKSLASH])

  /** The lines `a=v` and `b=v`; both sources are `h`, and the ledger knows `a` with another one. */
  ghost predicate PairFile(p: Policy, inp: Inputs, stale: Hash) {
    && inp.lines == ParseFile(Unsplit(FIRST) + [NEWLINE] + (Unsplit(SECOND) + [NEWLINE])) && Sane(inp)
    && inp.source == map[[A] := [H], [B] := [H]] && inp.added == {} && inp.changed == {}
    && inp.ledger == map[[A] := LedgerEntry(Some(stale), Some(p.HashOf([V])), false)] && stale != p.HashOf([H])
  }

  /** The review answers `u\` for `a`: the file is published, no key failed, and on disk `a` has taken
      the line of `b`, which was localized and not even selected. */
  lemma {:induction false} DanglingAnswerSwallows(p: Policy, inp: Inputs, w: World, stale: Hash)
    requires Lenient(p) && PairFile(p, inp, stale)
    requires Replies(w, [A], Some([U, BACKSLASH])) && forall text :: w.encoded(text)
    ensures Localized(inp.source, Translations(inp.lines), [B]) && Sane(inp) && [B] !in KeysOf(JobsOf(p, inp))
    ensures var out := RunFile(p, inp, w, None);
            && out.Published? && out.failed == {} && [B] in Translations(out.lines)
            && Translations(OnDisk(out.lines)) == map[[A] := [U] + Unsplit(SECOND)]
  {
    hide ParseFile, Unsplit, UnescapeKey, NonBlank, Same, Translations, Lenient, LoneJob, Replies, RunFile, Localized,
      Sane, Reassemble, Plain,
      Emit, JobsOf, KeysOf;
    LetterLine(A, EQUALS, [V]);
    LetterLine(B, EQUALS, [V]);
    LetterLine(A, EQUALS, [U, BACKSLASH]);
    PlainFileOfTwo(FIRST, SECOND);
    PairJob(p, inp, stale);
    assert Word([H]) && Word([U, BACKSLASH]);
    WordsDiffer([H], [U, BACKSLASH]);
    LoneRun(p, inp, w, 0, [A], [U, BACKSLASH]);
    PairOnDisk(inp.lines);
  }

  lemma {:induction false} TwoTranslations(x: Item, y: Item)
    requires x.Entry? && y.Entry?
    ensures Translations([x, y]) == map[x.key := x.value][y.key := y.value]
  {
    hide Translations;
    OneTranslation(x);
    TranslationsAppend([x], y);
    assert [x] + [y] == [x, y];
  }

  lemma {:induction false} PairJob(p: Policy, inp: Inputs, stale: Hash)
    requires Lenient(p) && PairFile(p, inp, stale)
    requires inp.lines == [EntryOn(FIRST, [V], Unsplit(FIRST) + [NEWLINE]),
             EntryOn(SECOND, [V], Unsplit(SECOND) + [NEWLINE])]
    requires UnescapeKey([A]) == [A] && UnescapeKey([B]) == [B]
    ensures LoneJob(p, inp, 0, [A]) && [B] !in KeysOf(JobsOf(p, inp))
    ensures Localized(inp.source, Translations(inp.lines), [B])
  {
    hide ParseFile, UnescapeKey, Unsplit, Normalize, NonBlank, Translations, Lenient, JobsOf, PicksOnly, Prepared, Word;
    assert [A][0] != [B][0];
    VAndHDiffer();
    QuietContext(p, inp);
    TwoTranslations(inp.lines[0], inp.lines[1]);
    PairPicks(p, inp, stale);
    JobsAre(p, inp);
    OnlyJob(ContextOf(p, inp), inp.lines, inp.order, 0);
  }

  lemma {:induction false} PairPicks(p: Policy, inp: Inputs, stale: Hash)
    requires Lenient(p) && |inp.lines| == 2 && inp.lines[0].Entry? && inp.lines[1].Entry?
             && inp.lines[0].key != inp.lines[1].key
    requires inp.source.Keys == {inp.lines[0].key, inp.lines[1].key} && NonBlank(inp.lines[1].value)
    requires EntryOf(inp.ledger, inp.lines[0].key).sourceHash == Some(stale)
             && stale != p.HashOf(inp.source[inp.lines[0].key])
    requires inp.lines[1].key !in inp.ledger
    ensures PicksOnly(Context(p, inp.source, {}, inp.ledger, {}), inp.lines, 0)
  {
    hide Normalize, NonBlank;
    assert HasKey(inp.lines, inp.lines[0].key) && HasKey(inp.lines, inp.lines[1].key);
  }

  lemma {:induction false} PairOnDisk(lines: seq<Item>)
    requires lines == [EntryOn(FIRST, [V], Unsplit(FIRST) + [NEWLINE]),
             EntryOn(SECOND, [V], Unsplit(SECOND) + [NEWLINE])]
    requires UnescapeKey([A]) == [A] && UnescapeKey([B]) == [B] && Plain(DANGLING) && Plain(SECOND)
    ensures var after := LineWith(lines, 0, [U, BACKSLASH]);
            [B] in Translations(after) && Translations(OnDisk(after)) == map[[A] := [U] + Unsplit(SECOND)]
  {
    hide ParseFile, UnescapeKey, Plain, Translations, Emit;
    var x := lines[0].(value := [U, BACKSLASH]);
    var text := Unsplit(DANGLING) + [NEWLINE] + (Unsplit(SECOND) + [NEWLINE]);
    assert LineWith(lines, 0, [U, BACKSLASH]) == [x, lines[1]];
    assert [A][0] != [B][0];
    TwoTranslations(x, lines[1]);
    RewrittenLine(FIRST, [U, BACKSLASH], DANGLING);
    KeptLine(SECOND);
    EmittedTogether(x, lines[1]);
    assert Cut(DANGLING) == [U] && Unsplit(SECOND)[0] == B;
    assert Continued(DANGLING);
    SwallowingFile(DANGLING, SECOND);
    OneTranslation(EntryOn(DANGLING, [U] + Unsplit(SECOND), text));
  }

  lemma {:induction false} KeptLine(s: SplitLine)
    ensures Emit(EntryOn(s, s.value, Unsplit(s) + [NEWLINE])) == Unsplit(s) + [NEWLINE]
  {
  }

  const OLDER: SplitLine := SplitLine([K], [EQUALS], [H])
  const LATER: SplitLine := SplitLine([K], [EQUALS], [V])
  const BLANK: SplitLine := SplitLine([A], [EQUALS], [])

  /** The lines `k=h`, `k=v` and `a=`; both sources are `h`, nothing is reported, and there is no ledger yet. */
  ghost predicate TripleFile(inp: Inputs) {
    && inp.lines == ParseFile(TextOf([OLDER, LATER, BLANK])) && Sane(inp)
    && inp.source == map[[K] := [H], [A] := [H]] && inp.ledger == map[] && inp.added == {} && inp.changed == {}
  }

  /** A run translates only `a` and is published; its ledger holds the hash of the later `k`, so the
      next run selects `k` for its earlier entry, although it is translated and did not fail. */
  lemma {:induction false} DuplicateIsSelectedAgain(p: Policy, inp: Inputs, w: World)
    requires Lenient(p) && TripleFile(inp) && Replies(w, [A], Some([U])) && (forall text :: w.encoded(text))
    requires p.HashOf([H]) != p.HashOf([V])
    ensures Sane(inp) && [K] !in KeysOf(JobsOf(p, inp))
    ensures var out := RunFile(p, inp, w, None);
            && out.Published? && out.failed == {}
            && var next := Inputs(OnDisk(out.lines), inp.source, inp.order, out.ledger, {}, {});
               Localized(inp.source, Translations(next.lines), [K]) && [K] in KeysOf(JobsOf(p, next))
  {
    hide ParseFile, Unsplit, UnescapeKey, NonBlank, Same, Translations, LoneJob, Replies, RunFile, Localized,
      Reassemble, Plain, WritesBack,
      JobsOf, KeysOf, Publishes, LinesOf, OnDisk, SelectedAgain, BuiltLedger, TextOf, Reread;
    TripleJob(p, inp);
    assert Word([H]) && Word([U]);
    WordsDiffer([H], [U]);
    LoneRun(p, inp, w, 2, [A], [U]);
    var pub := RunPublishes(p, inp, w, None);
    var text := TextOf([OLDER, LATER, BLANK]);
    TripleFits(inp.lines);
    PublishedFileReadsBack(p, inp, pub, text);
    NextRunOverTheFile(p, inp, pub, text, {}, {}, [K]);
    TripleEchoes(p, inp, LinesOf(pub), NextInputs(p, inp, pub, {}, {}), pub.failed);
  }

  function TripleLine(s: SplitLine, key: Text): Item {
    Entry(key, Some(key), [EQUALS], s.value, Some(s.value), Unsplit(s) + [NEWLINE])
  }

  lemma {:induction false} TripleParses()
    ensures ParseFile(TextOf([OLDER, LATER, BLANK]))
            == [TripleLine(OLDER, [K]), TripleLine(LATER, [K]), TripleLine(BLANK, [A])]
  {
    hide ParseFile, UnescapeKey, Plain, Unsplit;
    LetterLine(K, EQUALS, [H]);
    LetterLine(K, EQUALS, [V]);
    LetterLine(A, EQUALS, []);
    PlainFile([OLDER, LATER, BLANK]);
    assert [OLDER, LATER, BLANK][1..] == [LATER, BLANK];
    assert EntriesOf([OLDER, LATER, BLANK]) == [EntryOn(OLDER, [H], Unsplit(OLDER) + [NEWLINE])]
           + EntriesOf([LATER, BLANK]);
    TwoLineText(LATER, BLANK);
  }

  lemma {:induction false} TripleJob(p: Policy, inp: Inputs)
    requires Lenient(p) && TripleFile(inp)
    ensures LoneJob(p, inp, 2, [A]) && [K] !in KeysOf(JobsOf(p, inp))
  {
    hide ParseFile, Unsplit, Normalize, NonBlank, Lenient, JobsOf, TextOf;
    TripleParses();
    assert [A][0] != [K][0];
    QuietContext(p, inp);
    TriplePicks(p, inp);
    JobsAre(p, inp);
    OnlyJob(ContextOf(p, inp), inp.lines, inp.order, 2);
  }

  lemma {:induction false} BlankText()
    ensures !NonBlank([])
  {
  }

  /** An entry without a ledger entry is translated when it is blank. */
  lemma {:induction false} UnknownPick(c: Context, item: Item)
    requires Lenient(c.p) && c.newly == {} && c.accepted == {}
    requires item.Entry? && item.key in c.source && item.key !in c.ledger
    ensures Picks(c, item) <==> NonBlank(c.source[item.key]) && !NonBlank(item.value)
  {
    hide Normalize, NonBlank;
  }

  lemma {:induction false} TriplePicks(p: Policy, inp: Inputs)
    requires Lenient(p) && [A] in inp.source && inp.source.Keys == {[K], [A]} && inp.source[[A]] == [H]
             && inp.ledger == map[]
    requires inp.lines == [TripleLine(OLDER, [K]), TripleLine(LATER, [K]), TripleLine(BLANK, [A])]
    ensures PicksOnly(Context(p, inp.source, {}, inp.ledger, {}), inp.lines, 2)
  {
    VAndHDiffer();
    BlankText();
    hide Normalize, NonBlank, Unsplit, Lenient;
    assert [A][0] != [K][0];
    var c := Context(p, inp.source, {}, inp.ledger, {});
    forall j | 0 <= j < 3 ensures Picks(c, inp.lines[j]) <==> j == 2 { UnknownPick(c, inp.lines[j]); }
    assert HasKey(inp.lines, inp.lines[0].key) && HasKey(inp.lines, inp.lines[2].key);
  }

  lemma {:induction false} TripleFits(lines: seq<Item>)
    requires lines == ParseFile(TextOf([OLDER, LATER, BLANK]))
    ensures |lines| == 3 && lines[2].Entry? && WritesBack(TextOf([OLDER, LATER, BLANK]), LineWith(lines, 2, [U]))
  {
    hide ParseFile, UnescapeKey, EscapeNewlines, Unsplit, TextOf;
    TripleParses();
    PropertiesRoundTrip.NothingToEscape([U]);
    assert ValueFits([EQUALS], [U]) && !Dangling([A]) && !Dangling([U]);
  }

  lemma {:induction false} TripleEchoes(p: Policy, inp: Inputs, out: seq<Item>, next: Inputs, failed: set<Text>)
    requires Lenient(p) && TripleFile(inp) && |inp.lines| == 3 && inp.lines[2].Entry?
             && out == LineWith(inp.lines, 2, [U])
    requires Reread(out, next.lines) && next.source == inp.source && next.added == {} && next.changed == {}
    requires p.HashOf([H]) != p.HashOf([V])
    ensures SelectedAgain(p, next, failed, [K]) && Localized(inp.source, Translations(next.lines), [K])
  {
    hide ParseFile, Normalize, NonBlank, Sane, Translations, TextOf, Unsplit, EscapeNewlines, HasKey, Echoes;
    TripleParses();
    QuietContext(p, next);
    assert [A][0] != [K][0];
    VAndHDiffer();
    PropertiesRoundTrip.NothingToEscape([H]);
    PropertiesRoundTrip.NothingToEscape([V]);
    TwoTranslations(out[0], out[1]);
    TranslationsAppend([out[0], out[1]], out[2]);
    assert [out[0], out[1]] + [out[2]] == out;
    RereadTranslations(out, next.lines, [K]);
    assert RereadItem(out[0], next.lines[0]);
    AnEcho(p, [H], [V]);
    assert EchoesAt(p, next.lines, [K], [H], 0);
  }

  lemma {:induction false} AnEcho(p: Policy, source: Text, published: Text)
    requires p.HashOf(source) != p.HashOf(published)
    ensures Echoes(p, source, published, source)
  {
    hide Normalize;
  }
}
