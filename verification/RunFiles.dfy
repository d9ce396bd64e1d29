/** What a run leaves on disk: the published lines, written and read again. */
module RunFiles {
  import opened Texts
  import opened PropertiesKeys
  import opened PropertiesFile
  import opened PropertiesRoundTrip
  import opened PropertiesWriting
  import opened PropertiesAssembly
  import opened PropertiesChanges
  import opened Entries
  import opened Normalizing
  import opened Ledgers
  import opened Selection
  import opened Memory
  import opened Integration
  import opened Reviewing
  import opened FileRun
  import opened RunSafety

  /** The file after `lines` were written, parsed again. */
  function OnDisk(lines: seq<Item>): seq<Item> {
    ParseFile(Reassemble(lines))
  }

  // ---------------------------------------------------------- what the run writes

  lemma {:induction false} PublishedChanges(p: Policy, inp: Inputs, pub: Publication)
    requires Publishes(p, inp, pub)
    ensures Changes(inp.lines, LinesOf(pub))
  {
    hide Publishes, LinesOf;
    PublishedLines(p, inp, pub, 0);
    forall i: nat | i < |LinesOf(pub)|
      ensures if i < |inp.lines| then OnlyValue(inp.lines[i], LinesOf(pub)[i]) else Appended(LinesOf(pub)[i])
    {
      PublishedLines(p, inp, pub, i);
    }
  }

  /** Reading a published file again shows exactly what was published, if and only if every changed
      value and every new entry fits on its line. */
  lemma {:induction false} PublishedFileReadsBack(p: Policy, inp: Inputs, pub: Publication, text: Text)
    requires Publishes(p, inp, pub) && inp.lines == ParseFile(text)
    ensures Views(OnDisk(LinesOf(pub))) == WrittenViews(LinesOf(pub)) <==> WritesBack(text, LinesOf(pub))
    ensures WritesBack(text, LinesOf(pub)) ==> Reread(LinesOf(pub), OnDisk(LinesOf(pub)))
  {
    hide Publishes, LinesOf, WritesBack, Views, WrittenViews, ParseFile, Changes, Reread;
    PublishedChanges(p, inp, pub);
    ChangedFileReadsBack(text, LinesOf(pub));
    if WritesBack(text, LinesOf(pub)) { ShownIsReread(LinesOf(pub), OnDisk(LinesOf(pub))); }
  }

  // ------------------------------------------------------------- the frame on disk

  /** What a reader sees of an old line: a selected entry has changed nothing but its value, a forced
      entry shows the source value, everything else is as it was. */
  predicate LineOnDisk(p: Policy, source: Values, selected: set<Text>, x: Item, y: Item) {
    if x.Entry? && x.key in selected then y.Entry? && ViewOf(y) == ViewOf(x.(value := y.value))
    else if x.Entry? && Forced(p, source, x.key) then ViewOf(y) == ViewOf(x.(value := EscapeNewlines(source[x.key])))
    else ViewOf(y) == ViewOf(x)
  }

  predicate AddedOnDisk(selected: set<Text>, y: Item) {
    y.Entry? && y.key in selected && y.rawKey == Some(EscapeKey(y.key)) && y.separator == [EQUALS]
  }

  /** The lines of a published file, read again, one by one. */
  lemma {:induction false} PublishedFileLines(p: Policy, inp: Inputs, pub: Publication, text: Text, i: nat)
    requires Publishes(p, inp, pub) && inp.lines == ParseFile(text) && WritesBack(text, LinesOf(pub))
    ensures |inp.lines| <= |OnDisk(LinesOf(pub))| == |LinesOf(pub)|
    ensures i < |inp.lines| ==> LineOnDisk(p, inp.source, pub.selected, inp.lines[i], OnDisk(LinesOf(pub))[i])
    ensures |inp.lines| <= i < |LinesOf(pub)| ==> AddedOnDisk(pub.selected, OnDisk(LinesOf(pub))[i])
  {
    hide Publishes, LinesOf, WritesBack, Views, WrittenViews, ParseFile, OnDisk, LineAfter, Added, ViewOf, WrittenView,
      LineOnDisk,
      AddedOnDisk, Reread;
    var out := LinesOf(pub);
    PublishedFileReadsBack(p, inp, pub, text);
    PublishedLines(p, inp, pub, i);
    WrittenViewsLength(out);
    if i < |out| {
      ViewsAt(OnDisk(out), i);
      WrittenViewAt(out, i);
      if i < |inp.lines| {
        FileEntriesAreParsed(text);
        ShownLine(p, inp.source, pub.selected, inp.lines[i], out[i], OnDisk(out)[i]);
      } else {
        ShownAddition(pub.selected, out[i], OnDisk(out)[i]);
      }
    }
  }

  lemma {:induction false} ShownLine(p: Policy, source: Values, selected: set<Text>, x: Item, y: Item, z: Item)
    requires x.Entry? ==> ParsedEntry(x)
    requires LineAfter(p, source, selected, x, y) && ViewOf(z) == WrittenView(y)
    ensures LineOnDisk(p, source, selected, x, z)
  {
    hide UnescapeKey, EscapeNewlines;
    if x.Entry? { PropertiesRoundTrip.NothingToEscape(x.value); }
  }

  lemma {:induction false} ShownAddition(selected: set<Text>, y: Item, z: Item)
    requires Added(y, selected) && ViewOf(z) == WrittenView(y)
    ensures AddedOnDisk(selected, z)
  {
  }

  // ------------------------------------------------------- no silent regression on disk

  /** A key whose value on disk was localized still has a value there that is no echo of its source,
      unless it is ignored or exactly accepted, or something written does not fit on its line. */
  lemma {:induction false} NoSilentRegressionOnDisk(p: Policy, inp: Inputs, pub: Publication, text: Text, key: Text)
    requires Publishes(p, inp, pub) && inp.lines == ParseFile(text) && WritesBack(text, LinesOf(pub))
    requires key != [] && !p.ignored(key)
    requires key in inp.source && NonBlank(inp.source[key]) && Localized(inp.source, Translations(inp.lines), key)
    ensures key in Translations(OnDisk(LinesOf(pub)))
    ensures Same(Translations(OnDisk(LinesOf(pub)))[key], inp.source[key]) ==>
              key in p.accepted && p.accepted[key] == inp.source[key]
  {
    hide Publishes, LinesOf, WritesBack, ParseFile, OnDisk, Translations, Normalize, NonBlank, Reread, Localized,
      EscapeNewlines;
    var out := LinesOf(pub);
    NoSilentRegression(p, inp, pub, key);
    PublishedFileReadsBack(p, inp, pub, text);
    RereadTranslations(out, OnDisk(out), key);
    NormalizeSurvivesWriting(Translations(out)[key]);
  }
}
