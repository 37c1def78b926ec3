/**
 * The command line importer's `main`: every statement named on the
 * command line runs through the merge loop against one hash set and one
 * list of new records, and the master ledger is rewritten once at the end
 * when anything is new.
 */
module Cli {
  import opened Wrappers
  import opened Records
  import opened Extractor
  import opened Ordering
  import opened Merge
  import opened LedgerStore
  import opened Api
  import opened Importing

  /** The records of one statement, or None when its file is missing or it does not parse (both are skipped). */
  function StatementRecords(pdf: Option<Document>): (r: Option<seq<Record>>)
    ensures r.Some? ==> AllMergeable(r.value)
  {
    match pdf
    case None => None
    case Some(doc) =>
      if |doc| > 0 && HasIssuerMarker(FirstPageText(doc)) then
        ExtractedMergeable(doc);
        Some(DocumentRecords(doc))
      else None
  }

  predicate AllBatchesMergeable(batches: seq<seq<Record>>) {
    forall i :: 0 <= i < |batches| ==> AllMergeable(batches[i])
  }

  /** The record lists of the statements among the first `n` that exist and parse, in command line order. */
  function ParsedStatements(pdfs: seq<Option<Document>>, n: nat): (batches: seq<seq<Record>>)
    requires n <= |pdfs|
    ensures AllBatchesMergeable(batches)
  {
    if n == 0 then []
    else
      ParsedStatements(pdfs, n - 1) +
        match StatementRecords(pdfs[n - 1]) case None => [] case Some(ts) => [ts]
  }

  /**
   * The loop state after the statements `batches`: all new records so far,
   * the hash set, and the duplicates skipped. Every statement uses the
   * ledger's original length as its sequence offset.
   */
  function RunBatches(batches: seq<seq<Record>>, fp: Record -> string, known: set<string>, now: string, offset: int): Outcome
    requires AllBatchesMergeable(batches)
  {
    if batches == [] then Outcome([], known, 0)
    else
      var prev := RunBatches(batches[..|batches| - 1], fp, known, now, offset);
      var ts := batches[|batches| - 1];
      var o := Dedup(ts, Hashes(fp, ts), prev.known, now, offset, |ts|);
      Outcome(prev.accepted + o.accepted, o.known, prev.dupCount + o.dupCount)
  }

  /** The number of records in all statements. */
  function TotalRecords(batches: seq<seq<Record>>): nat {
    if batches == [] then 0 else TotalRecords(batches[..|batches| - 1]) + |batches[|batches| - 1]|
  }

  /** Across all statements, every record is either new or a skipped duplicate. */
  lemma {:induction false} RunCounts(batches: seq<seq<Record>>, fp: Record -> string, known: set<string>, now: string, offset: int)
    requires AllBatchesMergeable(batches)
    ensures |RunBatches(batches, fp, known, now, offset).accepted| + RunBatches(batches, fp, known, now, offset).dupCount
      == TotalRecords(batches)
  {
    if batches != [] {
      var init := batches[..|batches| - 1];
      var ts := batches[|batches| - 1];
      RunCounts(init, fp, known, now, offset);
      DedupCounts(ts, Hashes(fp, ts), RunBatches(init, fp, known, now, offset).known, now, offset, |ts|);
    }
  }

  /** Records whose hashes lie outside `known`, inside `after`, and are pairwise distinct. */
  predicate FreshAgainst(accepted: seq<Record>, known: set<string>, after: set<string>) {
    (forall k :: 0 <= k < |accepted| ==>
      "hash" in accepted[k] && accepted[k]["hash"].VStr? && accepted[k]["hash"].s !in known && accepted[k]["hash"].s in after) &&
    (forall a, b :: 0 <= a < b < |accepted| ==> accepted[a]["hash"] != accepted[b]["hash"])
  }

  /** One statement's run appends fresh records to fresh records. */
  lemma RunStepFresh(prev: Outcome, ts: seq<Record>, hs: seq<string>, known: set<string>, now: string, offset: int)
    requires AllMergeable(ts) && |hs| == |ts|
    requires known <= prev.known && FreshAgainst(prev.accepted, known, prev.known)
    ensures var o := Dedup(ts, hs, prev.known, now, offset, |ts|);
      known <= o.known && FreshAgainst(prev.accepted + o.accepted, known, o.known)
  {
    var o := Dedup(ts, hs, prev.known, now, offset, |ts|);
    AcceptedFresh(ts, hs, prev.known, now, offset);
    AcceptedKnown(ts, hs, prev.known, now, offset);
    var joined: seq<Record> := prev.accepted + o.accepted;
    var p := |prev.accepted|;
    forall k | 0 <= k < |joined|
      ensures "hash" in joined[k] && joined[k]["hash"].VStr? && joined[k]["hash"].s !in known && joined[k]["hash"].s in o.known
    {
      if k >= p {
        assert joined[k] == o.accepted[k - p];
      }
    }
    forall a, b | 0 <= a < b < |joined| ensures joined[a]["hash"] != joined[b]["hash"] {
      if b >= p {
        assert joined[b] == o.accepted[b - p];
        if a >= p {
          assert joined[a] == o.accepted[a - p];
        }
      }
    }
  }

  /** No hash is accepted twice across statements, and none that was known at the start. */
  lemma {:induction false} RunFresh(batches: seq<seq<Record>>, fp: Record -> string, known: set<string>, now: string, offset: int)
    requires AllBatchesMergeable(batches)
    ensures var out := RunBatches(batches, fp, known, now, offset);
      known <= out.known && FreshAgainst(out.accepted, known, out.known)
  {
    if batches != [] {
      var init := batches[..|batches| - 1];
      var ts := batches[|batches| - 1];
      RunFresh(init, fp, known, now, offset);
      RunStepFresh(RunBatches(init, fp, known, now, offset), ts, Hashes(fp, ts), known, now, offset);
    }
  }

  /** A ledger without repeated hashes keeps that property once the new records of all statements are appended. */
  lemma MainHashesDistinct(content: Option<CsvFile>, batches: seq<seq<Record>>, fp: Record -> string, now: string)
    requires LoadExisting(content).Success? && DistinctHashes(LoadExisting(content).value.rows)
    requires AllBatchesMergeable(batches)
    ensures var l := LoadExisting(content).value;
      DistinctHashes(l.rows + RunBatches(batches, fp, l.hashes, now, |l.rows|).accepted)
  {
    var l := LoadExisting(content).value;
    RunFresh(batches, fp, l.hashes, now, |l.rows|);
    forall i | 0 <= i < |l.rows| && Get(l.rows[i], "hash", VNone).VStr? && Get(l.rows[i], "hash", VNone).s != []
      ensures Get(l.rows[i], "hash", VNone).s in l.hashes
    {
      LoadedHashes(content, Get(l.rows[i], "hash", VNone).s);
    }
    AppendFreshDistinct(l.rows, l.hashes, RunBatches(batches, fp, l.hashes, now, |l.rows|).accepted);
  }

  /** The new records of all statements can be sorted. */
  lemma {:induction false} RunSortable(batches: seq<seq<Record>>, fp: Record -> string, known: set<string>, now: string, offset: int)
    requires AllBatchesMergeable(batches)
    ensures forall t :: t in RunBatches(batches, fp, known, now, offset).accepted ==> Sortable(t)
  {
    if batches != [] {
      var init := batches[..|batches| - 1];
      var ts := batches[|batches| - 1];
      RunSortable(init, fp, known, now, offset);
      AcceptedSortable(ts, Hashes(fp, ts), RunBatches(init, fp, known, now, offset).known, now, offset);
    }
  }

  /** Running one more statement extends the loop state by that statement's run. */
  lemma RunStep(batches: seq<seq<Record>>, ts: seq<Record>, fp: Record -> string, known: set<string>, now: string, offset: int)
    requires AllBatchesMergeable(batches) && AllMergeable(ts)
    ensures AllBatchesMergeable(batches + [ts])
    ensures var prev := RunBatches(batches, fp, known, now, offset);
      var o := Dedup(ts, Hashes(fp, ts), prev.known, now, offset, |ts|);
      var next := RunBatches(batches + [ts], fp, known, now, offset);
      next.accepted == prev.accepted + o.accepted && next.known == o.known && next.dupCount == prev.dupCount + o.dupCount
  {
    assert (batches + [ts])[..|batches|] == batches;
  }

  /** A statement that is missing or does not parse adds no batch. */
  lemma ParsedSkip(pdfs: seq<Option<Document>>, i: nat)
    requires i < |pdfs| && StatementRecords(pdfs[i]).None?
    ensures ParsedStatements(pdfs, i + 1) == ParsedStatements(pdfs, i)
  {
    assert ParsedStatements(pdfs, i + 1) == ParsedStatements(pdfs, i) + [];
  }

  /** A statement that parses adds its records as the next batch. */
  lemma ParsedTake(pdfs: seq<Option<Document>>, i: nat, ts: seq<Record>)
    requires i < |pdfs| && StatementRecords(pdfs[i]) == Some(ts)
    ensures ParsedStatements(pdfs, i + 1) == ParsedStatements(pdfs, i) + [ts]
  {
  }

  /** One more statement extends the loop state by that statement's run, or leaves it alone when it is skipped. */
  lemma StatementStep(pdfs: seq<Option<Document>>, i: nat, fp: Record -> string, known: set<string>, now: string, offset: int)
    requires i < |pdfs|
    ensures var prev := RunBatches(ParsedStatements(pdfs, i), fp, known, now, offset);
      var next := RunBatches(ParsedStatements(pdfs, i + 1), fp, known, now, offset);
      match StatementRecords(pdfs[i])
      case None => next.accepted == prev.accepted && next.known == prev.known
      case Some(ts) =>
        var o := Dedup(ts, Hashes(fp, ts), prev.known, now, offset, |ts|);
        next.accepted == prev.accepted + o.accepted && next.known == o.known
  {
    match StatementRecords(pdfs[i])
    case None => ParsedSkip(pdfs, i);
    case Some(ts) =>
      ParsedTake(pdfs, i, ts);
      RunStep(ParsedStatements(pdfs, i), ts, fp, known, now, offset);
  }

  /** The loop state of `main` after statement `i`, from its state before it and that statement's pass. */
  lemma LoopStep(pdfs: seq<Option<Document>>, i: nat, fp: Record -> string, known: set<string>, now: string, offset: int,
                 allNew: seq<Record>, knownAfter: set<string>, newTxns: seq<Record>, hashes: set<string>)
    requires i < |pdfs|
    requires RunBatches(ParsedStatements(pdfs, i), fp, known, now, offset).accepted == allNew
    requires RunBatches(ParsedStatements(pdfs, i), fp, known, now, offset).known == knownAfter
    requires match StatementRecords(pdfs[i])
      case None => newTxns == [] && hashes == knownAfter
      case Some(ts) =>
        var o := Dedup(ts, Hashes(fp, ts), knownAfter, now, offset, |ts|);
        newTxns == o.accepted && hashes == o.known
    ensures RunBatches(ParsedStatements(pdfs, i + 1), fp, known, now, offset).accepted == allNew + newTxns
    ensures RunBatches(ParsedStatements(pdfs, i + 1), fp, known, now, offset).known == hashes
  {
    StatementStep(pdfs, i, fp, known, now, offset);
    if StatementRecords(pdfs[i]).None? {
      assert allNew + newTxns == allNew;
    }
  }

  /**
   * One pass of the merge loop of `main`: a statement that is missing or
   * does not parse is skipped; otherwise its records are deduplicated
   * against the hashes known so far.
   */
  method MergeStatement(pdf: Option<Document>, fp: Record -> string, known: set<string>, now: string, offset: int)
    returns (newTxns: seq<Record>, hashes: set<string>)
    ensures match StatementRecords(pdf)
      case None => newTxns == [] && hashes == known
      case Some(ts) =>
        var o := Dedup(ts, Hashes(fp, ts), known, now, offset, |ts|);
        newTxns == o.accepted && hashes == o.known
  {
    if pdf.None? {
      return [], known;
    }
    var parsed := ParsePdf(pdf.value);
    if parsed.Failure? {
      return [], known;
    }
    var ts := parsed.value.transactions;
    assert StatementRecords(pdf) == Some(ts);
    var newCount, dupCount;
    newTxns, hashes, newCount, dupCount := Deduplicate(fp, ts, known, now, offset);
  }

  /**
   * The merge loop of `main`: the new records of every statement are
   * appended to those of the earlier statements, and the hash set grows
   * along the way.
   */
  method MergeStatements(pdfs: seq<Option<Document>>, fp: Record -> string, known: set<string>, now: string, offset: int)
    returns (allNew: seq<Record>, knownAfter: set<string>)
    ensures allNew == RunBatches(ParsedStatements(pdfs, |pdfs|), fp, known, now, offset).accepted
    ensures knownAfter == RunBatches(ParsedStatements(pdfs, |pdfs|), fp, known, now, offset).known
  {
    allNew := [];
    knownAfter := known;
    for i := 0 to |pdfs|
      invariant RunBatches(ParsedStatements(pdfs, i), fp, known, now, offset).accepted == allNew
      invariant RunBatches(ParsedStatements(pdfs, i), fp, known, now, offset).known == knownAfter
    {
      var newTxns, hashes := MergeStatement(pdfs[i], fp, knownAfter, now, offset);
      LoopStep(pdfs, i, fp, known, now, offset, allNew, knownAfter, newTxns, hashes);
      allNew := allNew + newTxns;
      knownAfter := hashes;
    }
  }

  /** How `main` ends early. */
  datatype MainError = LedgerUnreadable(load: LoadError) | LedgerNotWritten

  /**
   * `main` over the statements `pdfs` (None for a path that does not
   * exist): load the ledger, run the merge loop over each statement that
   * parses, then write the merged ledger when anything is new. The answer
   * is the number of records added. A schema error in the ledger and a
   * failed write end the program.
   */
  method ImportStatements(ledger: LedgerFile, pdfs: seq<Option<Document>>, fp: Record -> string, now: string, writeOk: bool)
    returns (r: Result<nat, MainError>)
    requires NoSeqColumn(ledger.content)
    modifies ledger
    ensures LoadExisting(old(ledger.content)).Failure? ==>
      r == Failure(LedgerUnreadable(LoadExisting(old(ledger.content)).error))
    ensures LoadExisting(old(ledger.content)).Success? ==>
      var l := LoadExisting(old(ledger.content)).value;
      var out := RunBatches(ParsedStatements(pdfs, |pdfs|), fp, l.hashes, now, |l.rows|);
      if out.accepted != [] && !writeOk then r == Failure(LedgerNotWritten)
      else (r.Success? && r.value == |out.accepted| &&
            ledger.content == if out.accepted == [] then old(ledger.content)
                              else Some(Render(Numbered(StableSort(l.rows + out.accepted)))))
    ensures r.Failure? ==> ledger.content == old(ledger.content)
  {
    ghost var before := ledger.content;
    var loaded := ledger.Load();
    if loaded.Failure? {
      return Failure(LedgerUnreadable(loaded.error));
    }
    var existing := loaded.value.rows;
    var existingHashes := loaded.value.hashes;
    var seqOffset := |existing|;
    var allNew, _ := MergeStatements(pdfs, fp, existingHashes, now, seqOffset);
    if allNew == [] {
      return Success(0);
    }
    var merged := existing + allNew;
    LoadedRowsShape(before);
    RunSortable(ParsedStatements(pdfs, |pdfs|), fp, loaded.value.hashes, now, seqOffset);
    var w := ledger.WriteMaster(merged, writeOk);
    if w.Failure? {
      return Failure(LedgerNotWritten);
    }
    return Success(|allNew|);
  }
}
