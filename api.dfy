/**
 * The two upload endpoints of the HTTP service: `POST /parse`, which
 * fingerprints and returns a statement's records, and `POST /parse-and-save`,
 * which merges the new ones into the master ledger under the ledger lock.
 * The uploaded file reaches the model as its bytes and name (for the
 * checks) and as the document the PDF library opens it as.
 */
module Api {
  import opened Wrappers
  import opened Text
  import opened Records
  import opened Fingerprint
  import opened Extractor
  import opened Ordering
  import opened Merge
  import opened LedgerStore
  import opened ApiViews

  /** The endpoint's failures: 400 for a rejected upload, 422 for an unparseable statement, 500 otherwise. */
  datatype ApiError = BadUpload(upload: UploadError) | Unparseable(parse: ExtractError) | BrokenLedger(load: LoadError) | SaveFailed

  /** An upload the checks accept and whose document parses. */
  predicate Accepted(bytes: seq<byte>, filename: string, doc: Document) {
    ValidatePdf(bytes, filename).None? && |doc| > 0 && HasIssuerMarker(FirstPageText(doc))
  }

  /** The extracted records can enter the merge loop. */
  lemma ExtractedMergeable(doc: Document)
    ensures AllMergeable(DocumentRecords(doc))
  {
    ExtractedWellFormed(doc);
  }

  // ---------------------------------------------------------------------
  // POST /parse
  // ---------------------------------------------------------------------

  /** A record with its fingerprint and the import time attached. */
  function Labelled(t: Record, h: string, now: string): Record {
    t["hash" := VStr(h)]["imported_at" := VStr(now)]
  }

  /** The view of a record labelled with hash `h`. */
  function LabelledView(t: Record, h: string, now: string): Record {
    assert "hash" in Labelled(t, h, now);
    TxnToDict(Labelled(t, h, now)).value
  }

  /** A labelled record's view carries the hash, the import time and the hash's first 16 characters as its id. */
  lemma LabelledViewFields(t: Record, h: string, now: string)
    ensures var v := LabelledView(t, h, now);
      && Get(v, "hash", VNone) == VStr(h)
      && Get(v, "imported_at", VNone) == VStr(now)
      && Get(v, "txn_id", VNone) == VStr(h[..Min(16, |h|)])
  {
    var l := Labelled(t, h, now);
    assert Field(l, "hash") == VStr(h);
    TxnToDictFields(l);
    CsvFieldNames();
    assert "imported_at" != "txn_id" && "imported_at" != "hash" && "imported_at" != "account_source";
  }

  /** The first 16 characters of a fingerprint are 16 hex digits. */
  lemma HexPrefix(h: string)
    requires |h| == 32 && IsLowerHex(h)
    ensures |h[..16]| == 16 && IsLowerHex(h[..16])
  {
    forall i | 0 <= i < 16 ensures '0' <= h[..16][i] <= '9' || 'a' <= h[..16][i] <= 'f' {
      assert h[..16][i] == h[i];
    }
  }

  /**
   * The view `/parse` returns for a record carries its fingerprint, the
   * import time and an id of 16 hex digits cut from the fingerprint.
   */
  lemma ParsedViewFields(digest: HexDigest, t: Record, now: string)
    requires Hashable(t)
    ensures var v := LabelledView(t, HashOf(digest)(t), now); var h := ComputeHash(digest, t);
      && Get(v, "hash", VNone) == VStr(h)
      && Get(v, "imported_at", VNone) == VStr(now)
      && Get(v, "txn_id", VNone) == VStr(h[..16])
      && |h[..16]| == 16 && IsLowerHex(h[..16])
  {
    var h := ComputeHash(digest, t);
    LabelledViewFields(t, h, now);
    HexPrefix(h);
  }

  /** Records that agree on the five fingerprinted fields get the same `/parse` id. */
  lemma SameFieldsSameId(digest: HexDigest, t: Record, u: Record, now: string)
    requires Hashable(t) && Hashable(u) && HashInput(t) == HashInput(u)
    ensures Get(LabelledView(t, HashOf(digest)(t), now), "txn_id", VNone) ==
            Get(LabelledView(u, HashOf(digest)(u), now), "txn_id", VNone)
  {
    LabelledViewFields(t, ComputeHash(digest, t), now);
    LabelledViewFields(u, ComputeHash(digest, u), now);
  }

  /** `for txn in transactions: txn["hash"] = compute_hash(txn); txn["imported_at"] = now`, with `fp` the fingerprint. */
  method LabelAll(fp: Record -> string, ts: seq<Record>, now: string) returns (labelled: seq<Record>)
    ensures |labelled| == |ts| && forall i :: 0 <= i < |ts| ==> labelled[i] == Labelled(ts[i], fp(ts[i]), now)
  {
    labelled := [];
    for i := 0 to |ts|
      invariant |labelled| == i
      invariant forall k :: 0 <= k < i ==> labelled[k] == Labelled(ts[k], fp(ts[k]), now)
    {
      labelled := labelled + [Labelled(ts[i], fp(ts[i]), now)];
    }
  }

  /** Labelled records all have a view: the one of their hash. */
  lemma ViewsOfLabelled(fp: Record -> string, ts: seq<Record>, labelled: seq<Record>, now: string)
    requires |labelled| == |ts| && forall i :: 0 <= i < |ts| ==> labelled[i] == Labelled(ts[i], fp(ts[i]), now)
    ensures Views(labelled).Some?
    ensures forall i :: 0 <= i < |ts| ==> Views(labelled).value[i] == LabelledView(ts[i], fp(ts[i]), now)
  {
    forall i | 0 <= i < |labelled| ensures Field(labelled[i], "hash").VStr? {
      assert "hash" in labelled[i];
    }
  }

  /**
   * `parse_statement`: validate, parse, then attach to each record its
   * fingerprint and the import time, and return the views.
   */
  method ParseStatement(bytes: seq<byte>, filename: string, doc: Document, digest: HexDigest, now: string)
    returns (r: Result<seq<Record>, ApiError>)
    ensures ValidatePdf(bytes, filename).Some? ==> r == Failure(BadUpload(ValidatePdf(bytes, filename).value))
    ensures ValidatePdf(bytes, filename).None? && |doc| == 0 ==> r == Failure(Unparseable(NoPages))
    ensures ValidatePdf(bytes, filename).None? && |doc| > 0 && !HasIssuerMarker(FirstPageText(doc)) ==>
      r == Failure(Unparseable(NotAStatement))
    ensures Accepted(bytes, filename, doc) ==>
      var ts := DocumentRecords(doc);
      r.Success? && |r.value| == |ts| && forall i :: 0 <= i < |ts| ==> r.value[i] == LabelledView(ts[i], HashOf(digest)(ts[i]), now)
  {
    var v := ValidatePdf(bytes, filename);
    if v.Some? {
      return Failure(BadUpload(v.value));
    }
    var parsed := ParsePdf(doc);
    if parsed.Failure? {
      return Failure(Unparseable(parsed.error));
    }
    var ts := parsed.value.transactions;
    assert ts == DocumentRecords(doc);
    var labelled := LabelAll(HashOf(digest), ts, now);
    ViewsOfLabelled(HashOf(digest), ts, labelled, now);
    var views := Views(labelled);
    return Success(views.value);
  }
}
