/**
 * The request-side checks and the response view of the HTTP service:
 * `_validate_pdf` on an uploaded file and `_txn_to_dict`, the dictionary
 * every endpoint returns for a transaction.
 */
module ApiViews {
  import opened Wrappers
  import opened Text
  import opened Records

  newtype byte = x: int | 0 <= x < 256

  /** `MAX_PDF_SIZE`, 50 MB */
  const MaxPdfSize: nat := 50 * 1024 * 1024

  /** The bytes of "%PDF-" */
  const PdfMagic: seq<byte> := [0x25, 0x50, 0x44, 0x46, 0x2D]

  /** The three rejections, each answered with status 400. */
  datatype UploadError = NotPdfName | TooLarge | NotPdfData

  /** `bs[:n]` */
  function Prefix(bs: seq<byte>, n: nat): (p: seq<byte>)
    ensures |p| == Min(n, |bs|) && p == bs[..|p|]
  {
    if n <= |bs| then bs[..n] else bs
  }

  /** `bs.startswith(pre)` */
  predicate BytesStartWith(bs: seq<byte>, pre: seq<byte>) {
    |pre| <= |bs| && bs[..|pre|] == pre
  }

  predicate PdfName(filename: string) {
    EndsWith(Lower(filename), ".pdf")
  }

  /**
   * `_validate_pdf`: the extension is checked first, then the size, then the
   * magic bytes; None when the upload is accepted.
   */
  function ValidatePdf(bytes: seq<byte>, filename: string): (r: Option<UploadError>)
    ensures r == Some(NotPdfName) <==> !PdfName(filename)
    ensures r == Some(TooLarge) <==> PdfName(filename) && |bytes| > MaxPdfSize
    ensures r == Some(NotPdfData) <==>
      PdfName(filename) && |bytes| <= MaxPdfSize && !(5 <= |bytes| && bytes[..5] == PdfMagic)
    ensures r == None <==> PdfName(filename) && 5 <= |bytes| <= MaxPdfSize && bytes[..5] == PdfMagic
  {
    if !PdfName(filename) then Some(NotPdfName)
    else if |bytes| > MaxPdfSize then Some(TooLarge)
    else if !BytesStartWith(Prefix(bytes, 5), PdfMagic) then Some(NotPdfData)
    else None
  }

  /** The extension test ignores case: "STATEMENT.PDF" passes it as "statement.pdf" does. */
  lemma ExtensionIgnoresCase(filename: string)
    requires EndsWith(filename, ".PDF") || EndsWith(filename, ".pdf")
    ensures PdfName(filename)
  {
    var n := |filename|;
    assert Lower(filename)[n - 4..] == ".pdf" by {
      forall i | n - 4 <= i < n ensures Lower(filename)[i] == ".pdf"[i - (n - 4)] {
        assert filename[n - 4..][i - (n - 4)] == filename[i];
      }
    }
  }

  /** The verdict depends only on the name, the size and the first five bytes. */
  lemma ValidateReadsHeadOnly(a: seq<byte>, b: seq<byte>, filename: string)
    requires |a| == |b| && (|a| >= 5 ==> a[..5] == b[..5])
    ensures ValidatePdf(a, filename) == ValidatePdf(b, filename)
  {
  }

  /** A value as the view reads it, with `default` for a missing key. */
  function Field(txn: Record, key: string): Value {
    Get(txn, key, VStr(""))
  }

  /** The value the view gives column `k` of a record whose hash is `h`. */
  function ViewValue(txn: Record, h: string, k: string): Value {
    if k == "txn_id" then VStr(h[..Min(16, |h|)])
    else if k == "hash" then VStr(h)
    else if k == "account_source" then Get(txn, k, VStr("sbi_email"))
    else Field(txn, k)
  }

  /**
   * `_txn_to_dict`: the ledger's twelve columns, "" for a missing one and
   * "sbi_email" for a missing `account_source`, with `txn_id` the first 16
   * characters of the hash. None where the hash is not a string, for which
   * the slice raises.
   */
  function TxnToDict(txn: Record): (d: Option<Record>)
    ensures d.Some? <==> Field(txn, "hash").VStr?
    ensures d.Some? ==> d.value.Keys == CsvFieldSet
  {
    match Field(txn, "hash")
    case VStr(h) => Some(map k | k in CsvFieldSet :: ViewValue(txn, h, k))
    case _ => None
  }

  /** The view's value for a ledger column is the one `ViewValue` gives it. */
  lemma TxnToDictAt(txn: Record, k: string)
    requires TxnToDict(txn).Some? && k in CsvFieldSet
    ensures TxnToDict(txn).value[k] == ViewValue(txn, Field(txn, "hash").s, k)
  {
  }

  /**
   * The view's columns: the hash as it is, `txn_id` the hash's first 16
   * characters, `account_source` defaulting to "sbi_email", every other
   * column the record's value or "".
   */
  lemma TxnToDictFields(txn: Record)
    requires TxnToDict(txn).Some?
    ensures var d := TxnToDict(txn).value; var h := Field(txn, "hash").s;
      && d["hash"] == VStr(h)
      && d["txn_id"].VStr? && |d["txn_id"].s| == Min(16, |h|) && StartsWith(h, d["txn_id"].s)
      && d["account_source"] == Get(txn, "account_source", VStr("sbi_email"))
      && forall k :: k in CsvFieldSet - {"txn_id", "hash", "account_source"} ==> d[k] == Field(txn, k)
  {
    TxnToDictId(txn);
    TxnToDictOthers(txn);
  }

  lemma TxnToDictId(txn: Record)
    requires TxnToDict(txn).Some?
    ensures var d := TxnToDict(txn).value; var h := Field(txn, "hash").s;
      && "hash" in d && d["hash"] == VStr(h) && "account_source" in d
      && d["account_source"] == Get(txn, "account_source", VStr("sbi_email"))
      && "txn_id" in d && d["txn_id"] == VStr(h[..Min(16, |h|)])
  {
    CsvFieldNames();
    TxnToDictAt(txn, "txn_id");
    TxnToDictAt(txn, "hash");
    TxnToDictAt(txn, "account_source");
  }

  lemma TxnToDictOthers(txn: Record)
    requires TxnToDict(txn).Some?
    ensures forall k :: k in CsvFieldSet - {"txn_id", "hash", "account_source"} ==> TxnToDict(txn).value[k] == Field(txn, k)
  {
    forall k | k in CsvFieldSet - {"txn_id", "hash", "account_source"}
      ensures TxnToDict(txn).value[k] == Field(txn, k)
    {
      TxnToDictAt(txn, k);
    }
  }

  /** The columns of the view other than `txn_id`, which is derived from the hash. */
  const ViewFields: set<string> := CsvFieldSet - {"txn_id"}

  /** Two records agree on a key: both lack it, or both hold the same value. */
  predicate SameAt(t1: Record, t2: Record, k: string) {
    (k in t1 <==> k in t2) && (k in t1 ==> t1[k] == t2[k])
  }

  /**
   * The view reads only the ledger columns other than `txn_id`: the
   * renumbering that `write_master_csv` applies to the same dictionaries,
   * and `_parse_seq`, do not change it.
   */
  lemma TxnToDictReadsColumns(t1: Record, t2: Record)
    requires forall k :: k in ViewFields ==> SameAt(t1, t2, k)
    ensures TxnToDict(t1) == TxnToDict(t2)
  {
    assert "hash" in ViewFields;
    assert SameAt(t1, t2, "hash");
    if Field(t1, "hash").VStr? {
      var h := Field(t1, "hash").s;
      forall k | k in CsvFieldSet ensures ViewValue(t1, h, k) == ViewValue(t2, h, k) {
        if k != "txn_id" {
          assert k in ViewFields;
          assert SameAt(t1, t2, k);
        }
      }
      assert TxnToDict(t1).value == TxnToDict(t2).value;
    }
  }

  /** Applying the view to its own output gives the same dictionary. */
  lemma TxnToDictIdempotent(txn: Record)
    requires TxnToDict(txn).Some?
    ensures TxnToDict(TxnToDict(txn).value) == TxnToDict(txn)
  {
    var d := TxnToDict(txn).value;
    var h := Field(txn, "hash").s;
    assert "hash" in CsvFieldSet;
    assert Field(d, "hash") == VStr(h);
    forall k | k in CsvFieldSet ensures ViewValue(d, h, k) == d[k] {
    }
    assert TxnToDict(d).value == d;
  }

  /** The views of a list of records, None where one of them has no string hash. */
  function Views(ts: seq<Record>): (vs: Option<seq<Record>>)
    ensures vs.Some? <==> forall i :: 0 <= i < |ts| ==> Field(ts[i], "hash").VStr?
    ensures vs.Some? ==> |vs.value| == |ts| && forall i :: 0 <= i < |ts| ==> vs.value[i] == TxnToDict(ts[i]).value
  {
    if ts == [] then Some([])
    else
      match (TxnToDict(ts[0]), Views(ts[1..]))
      case (Some(v), Some(rest)) => Some([v] + rest)
      case _ => None
  }
}
