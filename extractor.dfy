/**
 * The document walk of the statement parser. The decrypted PDF is given
 * as a sequence of pages, each with its text layer and its tables; the
 * walk visits pages, then tables, then rows, in reading order, and emits
 * one record per transaction row, numbered densely from zero.
 */
module Extractor {
  import opened Wrappers
  import opened Text
  import opened Records
  import opened Fields
  import opened Fingerprint

  type Table = seq<Row>

  /** A page: its text layer (None when it has none) and its extracted tables. */
  datatype Page = Page(text: Option<string>, tables: seq<Table>)

  type Document = seq<Page>

  datatype ExtractError =
    | NoPages        // the document has no pages
    | NotAStatement  // the first page carries no issuer marker

  datatype Extraction = Extraction(transactions: seq<Record>, pageCount: nat)

  /** "account", optional whitespace, "number", starting somewhere in `t`. */
  predicate HasAccountNumber(t: string) {
    (StartsWith(t, "account") && StartsWith(StripLeft(t[7..]), "number"))
    || (t != [] && HasAccountNumber(t[1..]))
  }

  /** The issuer test `re.search(r"State Bank|SBI|Account\s*Number", text, re.IGNORECASE)` */
  predicate HasIssuerMarker(text: string) {
    var t := Lower(text);
    Contains(t, "state bank") || Contains(t, "sbi") || HasAccountNumber(t)
  }

  /** `"debit" if debit else "credit" if credit else ""` */
  function TxnType(debit: string, credit: string): string {
    if debit != [] then "debit" else if credit != [] then "credit" else ""
  }

  /** The dictionary the walk appends, without its sequence number. */
  function TxnRecord(valueDate: string, postDate: string, details: string, refNo: string,
                     debit: string, credit: string, balance: string): Record
  {
    map[
      "value_date" := VStr(valueDate),
      "post_date" := VStr(postDate),
      "details" := VStr(details),
      "ref_no" := VStr(refNo),
      "debit" := VStr(debit),
      "credit" := VStr(credit),
      "balance" := VStr(balance),
      "txn_type" := VStr(TxnType(debit, credit)),
      "account_source" := VStr("sbi_email")
    ]
  }

  /** The fields the walk builds from a row of at least seven cells. */
  function Normalise(row: Row): Record
    requires |row| >= MinCols
  {
    var descRaw := CellText(row[ColDescription]);
    TxnRecord(Strip(CellText(row[ColValueDate])), Strip(CellText(row[ColTxnDate])),
      CleanDescription(descRaw), ExtractRefNumber(descRaw),
      ParseAmount(row[ColDebit]), ParseAmount(row[ColCredit]), ParseAmount(row[ColBalance]))
  }

  /** `not debit and not credit and not balance` for the row's normalised amounts */
  predicate NoAmount(row: Row)
    requires |row| >= MinCols
  {
    ParseAmount(row[ColDebit]) == [] && ParseAmount(row[ColCredit]) == [] && ParseAmount(row[ColBalance]) == []
  }

  /** The fields of the record the walk emits for a row, or None where it skips the row. */
  function RowFields(row: Row): Option<Record> {
    if row == [] || IsSummaryRow(row) || !IsTransactionRow(row) || NoAmount(row) then None
    else Some(Normalise(row))
  }

  /** A record as the walk emits it, before any fingerprint is attached. */
  predicate IsExtracted(e: Record) {
    && Hashable(e)
    && "txn_type" in e && "account_source" in e && "details" in e && "ref_no" in e
    && ParseSeqKey in e && e[ParseSeqKey].VInt? && e[ParseSeqKey].i >= 0
    && "hash" !in e && "imported_at" !in e && "txn_id" !in e
    && ParseDmy(e["post_date"].s).Some?
    && (e["debit"].s != [] || e["credit"].s != [] || e["balance"].s != [])
    && e["txn_type"] == VStr(TxnType(e["debit"].s, e["credit"].s))
    && e["account_source"] == VStr("sbi_email")
    && '|' !in e["post_date"].s && '|' !in e["debit"].s && '|' !in e["credit"].s && '|' !in e["balance"].s
  }

  /** A kept row is a row of at least seven cells, not a summary row, with a date in its first cell and an amount. */
  lemma KeptRowShape(row: Row)
    requires RowFields(row).Some?
    ensures |row| >= MinCols && !IsSummaryRow(row) && IsDate(row[ColTxnDate]) && !NoAmount(row)
    ensures RowFields(row).value == Normalise(row)
  {
  }

  /** The walk's record holds each field it was built from, under its own key. */
  lemma TxnRecordFields(valueDate: string, postDate: string, details: string, refNo: string,
                        debit: string, credit: string, balance: string, n: nat)
    ensures var e := TxnRecord(valueDate, postDate, details, refNo, debit, credit, balance)[ParseSeqKey := VInt(n)];
      && "value_date" in e && e["value_date"] == VStr(valueDate)
      && "post_date" in e && e["post_date"] == VStr(postDate)
      && "details" in e && "ref_no" in e
      && "debit" in e && e["debit"] == VStr(debit)
      && "credit" in e && e["credit"] == VStr(credit)
      && "balance" in e && e["balance"] == VStr(balance)
      && "txn_type" in e && e["txn_type"] == VStr(TxnType(debit, credit))
      && "account_source" in e && e["account_source"] == VStr("sbi_email")
      && ParseSeqKey in e && e[ParseSeqKey] == VInt(n)
  {
  }

  /** The walk's record has no hash, import time or `txn_id` yet. */
  lemma TxnRecordUnstamped(valueDate: string, postDate: string, details: string, refNo: string,
                           debit: string, credit: string, balance: string, n: nat)
    ensures var e := TxnRecord(valueDate, postDate, details, refNo, debit, credit, balance)[ParseSeqKey := VInt(n)];
      "hash" !in e && "imported_at" !in e && "txn_id" !in e
  {
  }

  lemma TxnRecordShape(valueDate: string, postDate: string, details: string, refNo: string,
                       debit: string, credit: string, balance: string, n: nat)
    requires ParseDmy(postDate).Some? && (debit != [] || credit != [] || balance != [])
    requires '|' !in postDate && '|' !in debit && '|' !in credit && '|' !in balance
    ensures IsExtracted(TxnRecord(valueDate, postDate, details, refNo, debit, credit, balance)[ParseSeqKey := VInt(n)])
  {
    TxnRecordFields(valueDate, postDate, details, refNo, debit, credit, balance, n);
    TxnRecordUnstamped(valueDate, postDate, details, refNo, debit, credit, balance, n);
  }

  /** The record built for a row with a date in its first cell and an amount is well formed. */
  lemma NormaliseShape(row: Row, n: nat)
    requires |row| >= MinCols && IsDate(row[ColTxnDate]) && !NoAmount(row)
    ensures IsExtracted(Normalise(row)[ParseSeqKey := VInt(n)])
  {
    NoBarInAmount(row[ColDebit]);
    NoBarInAmount(row[ColCredit]);
    NoBarInAmount(row[ColBalance]);
    var postDate := Strip(CellText(row[ColTxnDate]));
    NoBarInDate(postDate);
    var descRaw := CellText(row[ColDescription]);
    TxnRecordShape(Strip(CellText(row[ColValueDate])), postDate,
      CleanDescription(descRaw), ExtractRefNumber(descRaw),
      ParseAmount(row[ColDebit]), ParseAmount(row[ColCredit]), ParseAmount(row[ColBalance]), n);
  }

  /** The rows of a page's tables, table after table. */
  function TableRows(tables: seq<Table>): seq<Row> {
    if tables == [] then [] else TableRows(tables[..|tables| - 1]) + tables[|tables| - 1]
  }

  /** Every row of the document in reading order: page after page, table after table. */
  function AllRows(doc: Document): seq<Row> {
    if doc == [] then [] else AllRows(doc[..|doc| - 1]) + TableRows(doc[|doc| - 1].tables)
  }

  /**
   * The records emitted for a sequence of rows, numbered from zero; `keep`
   * gives the fields of the record for a row, or None for a row to skip.
   */
  function Emit(keep: Row -> Option<Record>, rows: seq<Row>): seq<Record> {
    if rows == [] then []
    else
      var prev := Emit(keep, rows[..|rows| - 1]);
      match keep(rows[|rows| - 1])
      case None => prev
      case Some(f) => prev + [f[ParseSeqKey := VInt(|prev|)]]
  }

  /** The number of rows kept */
  function CountKept(keep: Row -> Option<Record>, rows: seq<Row>): nat {
    if rows == [] then 0
    else CountKept(keep, rows[..|rows| - 1]) + (if keep(rows[|rows| - 1]).Some? then 1 else 0)
  }

  /** One record per kept row. */
  lemma {:induction false} EmitCount(keep: Row -> Option<Record>, rows: seq<Row>)
    ensures |Emit(keep, rows)| == CountKept(keep, rows)
  {
    if rows != [] {
      EmitCount(keep, rows[..|rows| - 1]);
    }
  }

  /** `_parse_seq` of the i-th emitted record is i. */
  lemma {:induction false} EmitNumbering(keep: Row -> Option<Record>, rows: seq<Row>)
    ensures forall i :: 0 <= i < |Emit(keep, rows)| ==>
      ParseSeqKey in Emit(keep, rows)[i] && Emit(keep, rows)[i][ParseSeqKey] == VInt(i)
  {
    if rows != [] {
      EmitNumbering(keep, rows[..|rows| - 1]);
    }
  }

  /** Each kept row appears, numbered by the count of kept rows before it: none is lost or reordered. */
  lemma {:induction false} EmitAt(keep: Row -> Option<Record>, rows: seq<Row>, j: nat)
    requires j < |rows| && keep(rows[j]).Some?
    ensures CountKept(keep, rows[..j]) < |Emit(keep, rows)|
    ensures Emit(keep, rows)[CountKept(keep, rows[..j])] ==
      keep(rows[j]).value[ParseSeqKey := VInt(CountKept(keep, rows[..j]))]
    decreases |rows|
  {
    var init := rows[..|rows| - 1];
    EmitCount(keep, init);
    if j == |rows| - 1 {
      assert rows[..j] == init;
    } else {
      EmitAt(keep, init, j);
      assert init[..j] == rows[..j];
    }
  }

  /** Every emitted record comes from a kept row. */
  lemma {:induction false} EmitOrigin(keep: Row -> Option<Record>, rows: seq<Row>, i: nat) returns (j: nat)
    requires i < |Emit(keep, rows)|
    ensures j < |rows| && keep(rows[j]).Some?
    ensures Emit(keep, rows)[i] == keep(rows[j]).value[ParseSeqKey := VInt(i)]
  {
    var init := rows[..|rows| - 1];
    if i < |Emit(keep, init)| {
      j := EmitOrigin(keep, init, i);
    } else {
      j := |rows| - 1;
    }
  }

  /** The records of a document: every emitted record comes from a non-summary row of seven or more cells. */
  lemma ExtractedFromTransactionRows(doc: Document, i: nat) returns (row: Row)
    requires i < |Emit(RowFields, AllRows(doc))|
    ensures row in AllRows(doc)
    ensures |row| >= MinCols && !IsSummaryRow(row) && IsDate(row[ColTxnDate]) && !NoAmount(row)
    ensures Emit(RowFields, AllRows(doc))[i] == Normalise(row)[ParseSeqKey := VInt(i)]
  {
    var j := EmitOrigin(RowFields, AllRows(doc), i);
    row := AllRows(doc)[j];
    KeptRowShape(row);
  }

  /** The i-th record of a document is well formed. */
  lemma ExtractedAt(doc: Document, i: nat)
    requires i < |Emit(RowFields, AllRows(doc))|
    ensures IsExtracted(Emit(RowFields, AllRows(doc))[i])
  {
    var row := ExtractedFromTransactionRows(doc, i);
    NormaliseShape(row, i);
  }

  /** Every record of a document is well formed: date, amounts, direction, source tag, sequence number. */
  lemma ExtractedWellFormed(doc: Document)
    ensures forall i :: 0 <= i < |Emit(RowFields, AllRows(doc))| ==> IsExtracted(Emit(RowFields, AllRows(doc))[i])
  {
    forall i | 0 <= i < |Emit(RowFields, AllRows(doc))| {
      ExtractedAt(doc, i);
    }
  }

  /** The records a document yields. */
  function DocumentRecords(doc: Document): seq<Record> {
    Emit(RowFields, AllRows(doc))
  }

  /** Emitting one more row appends at most its record. */
  lemma EmitSnoc(keep: Row -> Option<Record>, rows: seq<Row>, row: Row)
    ensures Emit(keep, rows + [row]) ==
      match keep(row)
      case None => Emit(keep, rows)
      case Some(f) => Emit(keep, rows) + [f[ParseSeqKey := VInt(|Emit(keep, rows)|)]]
  {
    assert (rows + [row])[..|rows|] == rows;
  }

  lemma SliceSnoc<T>(s: seq<T>, i: nat)
    requires i < |s|
    ensures s[..i + 1] == s[..i] + [s[i]]
  {
  }

  lemma TableRowsSnoc(tables: seq<Table>, t: nat)
    requires t < |tables|
    ensures TableRows(tables[..t + 1]) == TableRows(tables[..t]) + tables[t]
  {
    assert tables[..t + 1][..t] == tables[..t];
  }

  lemma AllRowsSnoc(doc: Document, p: nat)
    requires p < |doc|
    ensures AllRows(doc[..p + 1]) == AllRows(doc[..p]) + TableRows(doc[p].tables)
  {
    assert doc[..p + 1][..p] == doc[..p];
  }

  /**
   * The row loop of the walk over one table, continuing the numbering at
   * `next`; `keep` is the per-row step (RowFields for the statement parser).
   */
  method WalkTable(keep: Row -> Option<Record>, table: Table, ghost seen: seq<Row>,
                   transactions: seq<Record>, next: nat)
    returns (transactions': seq<Record>, next': nat)
    requires transactions == Emit(keep, seen) && next == |transactions|
    ensures transactions' == Emit(keep, seen + table) && next' == |transactions'|
  {
    transactions', next' := transactions, next;
    var i := 0;
    assert seen + table[..0] == seen;
    while i < |table|
      invariant 0 <= i <= |table|
      invariant transactions' == Emit(keep, seen + table[..i]) && next' == |transactions'|
    {
      var row := table[i];
      EmitSnoc(keep, seen + table[..i], row);
      var fields := keep(row);
      if fields.Some? {
        transactions' := transactions' + [fields.value[ParseSeqKey := VInt(next')]];
        next' := next' + 1;
      }
      SliceSnoc(table, i);
      assert seen + table[..i + 1] == (seen + table[..i]) + [row];
      i := i + 1;
    }
    assert table[..|table|] == table;
  }

  /** The page and table loops of the walk, emitting `keep`'s record for each row in reading order. */
  method Walk(keep: Row -> Option<Record>, doc: Document) returns (transactions: seq<Record>)
    ensures transactions == Emit(keep, AllRows(doc))
  {
    transactions := [];
    var next: nat := 0;
    ghost var seen: seq<Row> := [];
    var p := 0;
    while p < |doc|
      invariant 0 <= p <= |doc|
      invariant seen == AllRows(doc[..p])
      invariant transactions == Emit(keep, seen) && next == |transactions|
    {
      var tables := doc[p].tables;
      var t := 0;
      while t < |tables|
        invariant 0 <= t <= |tables|
        invariant seen == AllRows(doc[..p]) + TableRows(tables[..t])
        invariant transactions == Emit(keep, seen) && next == |transactions|
      {
        transactions, next := WalkTable(keep, tables[t], seen, transactions, next);
        seen := seen + tables[t];
        TableRowsSnoc(tables, t);
        t := t + 1;
      }
      assert tables[..|tables|] == tables;
      AllRowsSnoc(doc, p);
      p := p + 1;
    }
    assert doc[..|doc|] == doc;
  }

  /** The first page's text, `extract_text() or ""` */
  function FirstPageText(doc: Document): string
    requires |doc| > 0
  {
    doc[0].text.GetOr("")
  }

  /** The row walk of `parse_pdf` (the period on the first page is informational and not modelled). */
  method ParsePdf(doc: Document) returns (r: Result<Extraction, ExtractError>)
    ensures |doc| == 0 ==> r == Failure(NoPages)
    ensures |doc| > 0 && !HasIssuerMarker(FirstPageText(doc)) ==> r == Failure(NotAStatement)
    ensures |doc| > 0 && HasIssuerMarker(FirstPageText(doc)) ==>
      r == Success(Extraction(Emit(RowFields, AllRows(doc)), |doc|))
  {
    var pageCount := |doc|;
    if pageCount == 0 {
      return Failure(NoPages);
    }
    if !HasIssuerMarker(FirstPageText(doc)) {
      return Failure(NotAStatement);
    }
    var transactions := Walk(RowFields, doc);
    return Success(Extraction(transactions, pageCount));
  }
}
