/** The ledger fixpoint across the file: the next run reads what this run wrote. */
module LedgerFiles {
  import opened Texts
  import opened PropertiesFile
  import opened PropertiesRoundTrip
  import opened PropertiesChanges
  import opened Entries
  import opened Normalizing
  import opened Ledgers
  import opened Selection
  import opened Memory
  import opened FileRun
  import opened RunSafety
  import opened LedgerFixpoint
  import opened RunFiles

  /** What the next run finds after a publication, whatever synchronisation and git then report. */
  function NextInputs(p: Policy, inp: Inputs, pub: Publication, added: set<Text>, changed: set<Text>): Inputs {
    Inputs(OnDisk(LinesOf(pub)), inp.source, inp.order, LedgerOf(p, inp, pub), added, changed)
  }

  /** Over the file itself: after a publication that fits on its lines, the next run selects exactly
      the failed keys, and of those not accepted the ones synchronisation reports, the ones git reports
      with a value equal to the source, and the ones with an earlier entry that looks untranslated. */
  lemma {:induction false} NextRunOverTheFile(p: Policy, inp: Inputs, pub: Publication, text: Text, added: set<Text>,
        changed: set<Text>, key: Text)
    requires Publishes(p, inp, pub) && inp.lines == ParseFile(text) && WritesBack(text, LinesOf(pub)) && key != []
    ensures Sane(NextInputs(p, inp, pub, added, changed))
    ensures key in KeysOf(JobsOf(p, NextInputs(p, inp, pub, added, changed)))
            <==> SelectedAgain(p, NextInputs(p, inp, pub, added, changed), pub.failed, key)
  {
    hide LinesOf, Drafted, Validates, Reread, ParseFile, JobsOf, KeysOf, SelectedAgain, WritesBack, OnDisk, BuiltLedger;
    PublishedFileReadsBack(p, inp, pub, text);
    FileEntriesAreParsed(text);
    NextRunSelectsFailedKeys(p, inp, pub, NextInputs(p, inp, pub, added, changed), key);
  }
}
