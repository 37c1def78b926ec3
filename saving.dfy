/**
 * `POST /parse-and-save`: the upload checks and parse of `POST /parse`,
 * then, under the ledger lock, the load of the master ledger, the merge
 * loop and the write of the merged ledger.
 */
module Saving {
  import opened Wrappers
  import opened Text
  import opened Records
  import opened Fingerprint
  import opened Extractor
  import opened Ordering
  import opened Merge
  import opened LedgerStore
  import opened ApiViews
  import opened Api
  import opened Importing

  /** What the locked block hands back: the new records, the duplicate count and the ledger's new length. */
  datatype Merged = Merged(newTxns: seq<Record>, dupCount: nat, total: nat)

  /**
   * The block under `_csv_lock`: load the ledger, run the merge loop with
   * the ledger's length as the sequence offset, and write the merged
   * ledger when at least one record is new. `writeOk` is whether that
   * write succeeds.
   */
  method MergeIntoLedger(ledger: LedgerFile, ts: seq<Record>, fp: Record -> string, now: string, writeOk: bool)
    returns (r: Result<Merged, ApiError>)
    requires NoSeqColumn(ledger.content) && AllMergeable(ts)
    modifies ledger
    ensures LoadExisting(old(ledger.content)).Failure? ==>
      r == Failure(BrokenLedger(LoadExisting(old(ledger.content)).error))
    ensures LoadExisting(old(ledger.content)).Success? ==>
      var out := Imported(old(ledger.content), ts, fp, now);
      if out.accepted != [] && !writeOk then r == Failure(SaveFailed)
      else (r.Success? && r.value.newTxns == out.accepted && r.value.dupCount == out.dupCount &&
            r.value.total == |LoadExisting(old(ledger.content)).value.rows| + |out.accepted| &&
            ledger.content == Saved(old(ledger.content), ts, fp, now))
    ensures r.Failure? ==> ledger.content == old(ledger.content)
  {
    ghost var before := ledger.content;
    var loaded := ledger.Load();
    if loaded.Failure? {
      return Failure(BrokenLedger(loaded.error));
    }
    var existing := loaded.value.rows;
    var newTxns, knownAfter, newCount, dupCount := Deduplicate(fp, ts, loaded.value.hashes, now, |existing|);
    ghost var out := Imported(before, ts, fp, now);
    assert out == Outcome(newTxns, knownAfter, dupCount);
    SavedMerge(before, ts, fp, now, existing, newTxns);
    var total;
    if newCount > 0 {
      var merged := existing + newTxns;
      MergedSortable(before, ts, fp, now);
      var w := ledger.WriteMaster(merged, writeOk);
      if w.Failure? {
        return Failure(SaveFailed);
      }
      total := |merged|;
    } else {
      total := |existing|;
    }
    return Success(Merged(newTxns, dupCount, total));
  }

  /** The answer of `/parse-and-save` (the file name and statement period it echoes are not modelled). */
  datatype SaveResponse = SaveResponse(
    pages: nat, parsed: nat, newCount: nat, duplicatesSkipped: nat, totalInCsv: nat, newTransactions: seq<Record>)

  /** `parse_and_save`: validate and parse the upload, run the locked block, answer with the views of the new records. */
  method ParseAndSave(ledger: LedgerFile, bytes: seq<byte>, filename: string, doc: Document,
                      digest: HexDigest, now: string, writeOk: bool) returns (r: Result<SaveResponse, ApiError>)
    requires NoSeqColumn(ledger.content)
    modifies ledger
    ensures ValidatePdf(bytes, filename).Some? ==> r == Failure(BadUpload(ValidatePdf(bytes, filename).value))
    ensures ValidatePdf(bytes, filename).None? && |doc| == 0 ==> r == Failure(Unparseable(NoPages))
    ensures ValidatePdf(bytes, filename).None? && |doc| > 0 && !HasIssuerMarker(FirstPageText(doc)) ==>
      r == Failure(Unparseable(NotAStatement))
    ensures Accepted(bytes, filename, doc) && LoadExisting(old(ledger.content)).Failure? ==>
      r == Failure(BrokenLedger(LoadExisting(old(ledger.content)).error))
    ensures Accepted(bytes, filename, doc) && LoadExisting(old(ledger.content)).Success? ==>
      var ts := DocumentRecords(doc);
      AllMergeable(ts) &&
      var out := Imported(old(ledger.content), ts, HashOf(digest), now);
      if out.accepted != [] && !writeOk then r == Failure(SaveFailed)
      else (ledger.content == Saved(old(ledger.content), ts, HashOf(digest), now) && r.Success? &&
            r.value.pages == |doc| && r.value.parsed == |ts| &&
            r.value.newCount == |out.accepted| && r.value.duplicatesSkipped == out.dupCount &&
            r.value.totalInCsv == |LoadExisting(old(ledger.content)).value.rows| + |out.accepted| &&
            Views(out.accepted).Some? && r.value.newTransactions == Views(out.accepted).value)
    ensures r.Failure? ==> ledger.content == old(ledger.content)
  {
    ghost var before := ledger.content;
    var v := ValidatePdf(bytes, filename);
    if v.Some? {
      return Failure(BadUpload(v.value));
    }
    var parsed := ParsePdf(doc);
    if parsed.Failure? {
      return Failure(Unparseable(parsed.error));
    }
    var ts := parsed.value.transactions;
    assert ts == DocumentRecords(doc);
    ExtractedMergeable(doc);
    var m := MergeIntoLedger(ledger, ts, HashOf(digest), now, writeOk);
    if m.Failure? {
      return Failure(m.error);
    }
    ImportedViewable(before, ts, HashOf(digest), now);
    var views := Views(m.value.newTxns);
    return Success(SaveResponse(|doc|, |ts|, |m.value.newTxns|, m.value.dupCount, m.value.total, views.value));
  }

  /**
   * Uploading the same statement again after it was saved adds nothing:
   * every record's fingerprint is already in the saved ledger, so all of
   * them are skipped as duplicates.
   */
  lemma ReuploadAddsNothing(content: Option<CsvFile>, doc: Document, digest: HexDigest, now: string, later: string)
    requires NoSeqColumn(content) && LoadExisting(content).Success?
    ensures var ts := DocumentRecords(doc);
      AllMergeable(ts) && LoadExisting(Saved(content, ts, HashOf(digest), now)).Success? &&
      var again := Imported(Saved(content, ts, HashOf(digest), now), ts, HashOf(digest), later);
      again.accepted == [] && again.dupCount == |ts|
  {
    var ts := DocumentRecords(doc);
    ExtractedMergeable(doc);
    HashOfNonEmpty(digest, ts);
    ReimportAcceptsNothing(content, ts, HashOf(digest), now, later);
  }
}
