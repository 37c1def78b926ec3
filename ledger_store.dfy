/**
 * The master ledger file: `load_existing_csv` (a `csv.DictReader` over the
 * file, the schema check, the set of known hashes) and `write_master_csv`
 * (sort, renumber, a `csv.DictWriter` over `CSV_FIELDS`, atomic replace).
 * A CSV file is given by its lines, each a list of cells.
 */
module LedgerStore {
  import opened Wrappers
  import opened Text
  import opened Records
  import opened Fields
  import opened Ordering

  /** A CSV file as the reader and writer see it: one list of cells per line. */
  datatype CsvFile = CsvFile(lines: seq<seq<string>>)

  // ---------------------------------------------------------------------
  // Reading: csv.DictReader
  // ---------------------------------------------------------------------

  /** `dict(zip(header, cells))` over the first `k` pairs; a later duplicate name wins. */
  function Zip(header: seq<string>, cells: seq<string>, k: nat): (d: Record)
    requires k <= |header| && k <= |cells|
    ensures d.Keys == set x | x in header[..k]
  {
    assert k > 0 ==> header[..k] == header[..k - 1] + [header[k - 1]];
    if k == 0 then map[] else Zip(header, cells, k - 1)[header[k - 1] := VStr(cells[k - 1])]
  }

  /** The reader's `restval`: each name of `names` is set to None, in order. */
  function FillMissing(d: Record, names: seq<string>): (r: Record)
    ensures r.Keys == d.Keys + set x | x in names
    decreases |names|
  {
    if names == [] then d else FillMissing(d[names[0] := VNone], names[1..])
  }

  /** One data line as a dictionary (cells beyond the header go under the reader's `restkey` and are not kept). */
  function ReadRow(header: seq<string>, cells: seq<string>): Record {
    var k := Min(|header|, |cells|);
    FillMissing(Zip(header, cells, k), header[k..])
  }

  /** Every row the reader yields has exactly the header's names as keys. */
  lemma ReadRowKeys(header: seq<string>, cells: seq<string>)
    ensures ReadRow(header, cells).Keys == set x | x in header
  {
    var k := Min(|header|, |cells|);
    assert header == header[..k] + header[k..];
  }

  predicate Distinct(names: seq<string>) {
    forall i, j :: 0 <= i < j < |names| ==> names[i] != names[j]
  }

  lemma {:induction false} ZipValue(header: seq<string>, cells: seq<string>, k: nat, i: nat)
    requires k <= |header| && k <= |cells| && Distinct(header) && i < k
    ensures Zip(header, cells, k)[header[i]] == VStr(cells[i])
  {
    if i < k - 1 {
      ZipValue(header, cells, k - 1, i);
      assert header[i] != header[k - 1];
    }
  }

  lemma {:induction false} FillMissingValue(d: Record, names: seq<string>, x: string)
    decreases |names|
    ensures x !in names && x in d ==> FillMissing(d, names)[x] == d[x]
    ensures x in names ==> FillMissing(d, names)[x] == VNone
  {
    if names != [] {
      FillMissingValue(d[names[0] := VNone], names[1..], x);
      if x == names[0] && x !in names[1..] {
        assert FillMissing(d, names)[x] == d[names[0] := VNone][x];
      }
    }
  }

  /** With distinct header names, a name gets its own cell, or None where the line is too short. */
  lemma ReadRowValue(header: seq<string>, cells: seq<string>, i: nat)
    requires Distinct(header) && i < |header|
    ensures ReadRow(header, cells)[header[i]] == if i < |cells| then VStr(cells[i]) else VNone
  {
    ReadRowKeys(header, cells);
    var k := Min(|header|, |cells|);
    var z := Zip(header, cells, k);
    if i < k {
      ZipValue(header, cells, k, i);
      assert header[i] !in header[k..];
      FillMissingValue(z, header[k..], header[i]);
    } else {
      assert header[k..][i - k] == header[i];
      FillMissingValue(z, header[k..], header[i]);
    }
  }

  /** The data lines after the header, blank ones skipped. */
  function DataRows(header: seq<string>, lines: seq<seq<string>>): (rows: seq<Record>)
    ensures |rows| <= |lines|
  {
    if lines == [] then []
    else if lines[0] == [] then DataRows(header, lines[1..])
    else [ReadRow(header, lines[0])] + DataRows(header, lines[1..])
  }

  /** `list(csv.DictReader(f))`: the first line names the fields. */
  function ReadRows(f: CsvFile): seq<Record> {
    if f.lines == [] then [] else DataRows(f.lines[0], f.lines[1..])
  }

  lemma {:induction false} DataRowsKeys(header: seq<string>, lines: seq<seq<string>>)
    ensures forall r :: r in DataRows(header, lines) ==> r.Keys == set x | x in header
  {
    if lines != [] {
      DataRowsKeys(header, lines[1..]);
      ReadRowKeys(header, lines[0]);
    }
  }

  // ---------------------------------------------------------------------
  // load_existing_csv
  // ---------------------------------------------------------------------

  datatype Loaded = Loaded(rows: seq<Record>, hashes: set<string>)

  datatype LoadError = MissingColumns(missing: set<string>)

  /** `{r["hash"] for r in rows if r.get("hash")}` */
  function HashesOf(rows: seq<Record>): set<string> {
    if rows == [] then {}
    else
      HashesOf(rows[..|rows| - 1]) +
        match Get(rows[|rows| - 1], "hash", VNone)
        case VStr(h) => if h != [] then {h} else {}
        case _ => {}
  }

  /** The hash set is exactly the non-empty hash values of the rows. */
  lemma {:induction false} HashesOfIff(rows: seq<Record>, h: string)
    ensures h in HashesOf(rows) <==>
      h != [] && (exists i :: 0 <= i < |rows| && Get(rows[i], "hash", VNone) == VStr(h))
  {
    if rows != [] {
      var init := rows[..|rows| - 1];
      HashesOfIff(init, h);
      if h in HashesOf(init) {
        var i :| 0 <= i < |init| && Get(init[i], "hash", VNone) == VStr(h);
        assert rows[i] == init[i];
      }
      if h != [] && exists i :: 0 <= i < |rows| && Get(rows[i], "hash", VNone) == VStr(h) {
        var i :| 0 <= i < |rows| && Get(rows[i], "hash", VNone) == VStr(h);
        if i < |init| {
          assert init[i] == rows[i];
        }
      }
    }
  }

  /** The hash set of two row lists together is the union of theirs. */
  lemma {:induction false} HashesOfConcat(a: seq<Record>, b: seq<Record>)
    ensures HashesOf(a + b) == HashesOf(a) + HashesOf(b)
  {
    if b == [] {
      assert a + b == a;
    } else {
      var init := b[..|b| - 1];
      HashesOfConcat(a, init);
      assert (a + b)[..|a + b| - 1] == a + init;
      assert (a + b)[|a + b| - 1] == b[|b| - 1];
    }
  }

  /** `load_existing_csv`: a missing file is an empty ledger; a non-empty one must carry every ledger column. */
  function LoadExisting(file: Option<CsvFile>): Result<Loaded, LoadError> {
    match file
    case None => Success(Loaded([], {}))
    case Some(f) =>
      var rows := ReadRows(f);
      if rows != [] && CsvFieldSet - rows[0].Keys != {} then Failure(MissingColumns(CsvFieldSet - rows[0].Keys))
      else Success(Loaded(rows, HashesOf(rows)))
  }

  /** The schema check fails exactly when the file has a data row and its header lacks a ledger column. */
  lemma LoadFailsIff(f: CsvFile)
    ensures LoadExisting(Some(f)).Failure? <==>
      ReadRows(f) != [] && exists c :: c in CsvFields && c !in f.lines[0]
    ensures LoadExisting(Some(f)).Failure? ==>
      LoadExisting(Some(f)).error.missing == set c | c in CsvFields && c !in f.lines[0]
  {
    var rows := ReadRows(f);
    if rows != [] {
      DataRowsKeys(f.lines[0], f.lines[1..]);
      assert rows[0] in rows;
      var header := f.lines[0];
      assert rows[0].Keys == set x | x in header;
      assert CsvFieldSet - rows[0].Keys == set c | c in CsvFields && c !in header;
      if exists c :: c in CsvFields && c !in f.lines[0] {
        var c :| c in CsvFields && c !in f.lines[0];
        assert c in CsvFieldSet - rows[0].Keys;
      }
    }
  }

  /** A loaded ledger's hash set is the set of its non-empty hash values. */
  lemma LoadedHashes(file: Option<CsvFile>, h: string)
    requires LoadExisting(file).Success?
    ensures var rows := LoadExisting(file).value.rows;
      h in LoadExisting(file).value.hashes <==>
      h != [] && (exists i :: 0 <= i < |rows| && Get(rows[i], "hash", VNone) == VStr(h))
  {
    HashesOfIff(LoadExisting(file).value.rows, h);
  }

  // ---------------------------------------------------------------------
  // Writing: csv.DictWriter(fieldnames=CSV_FIELDS, extrasaction="ignore")
  // ---------------------------------------------------------------------

  /** The text the writer puts in a cell: None as "", an integer in decimal. */
  function FieldText(v: Value): string {
    match v
    case VStr(s) => s
    case VNone => ""
    case VInt(n) => IntToString(n)
  }

  /** One ledger line: the record's value for each ledger column, "" where it has none; other keys are ignored. */
  function RenderRow(t: Record): (cells: seq<string>)
    ensures |cells| == |CsvFields|
    ensures forall i :: 0 <= i < |CsvFields| ==> cells[i] == FieldText(Get(t, CsvFields[i], VStr("")))
  {
    seq(|CsvFields|, i requires 0 <= i < |CsvFields| => FieldText(Get(t, CsvFields[i], VStr(""))))
  }

  function RenderRows(ts: seq<Record>): (lines: seq<seq<string>>)
    ensures |lines| == |ts|
    ensures forall i :: 0 <= i < |ts| ==> lines[i] == RenderRow(ts[i])
  {
    if ts == [] then [] else [RenderRow(ts[0])] + RenderRows(ts[1..])
  }

  /** `writeheader()` then `writerows(transactions)` */
  function Render(ts: seq<Record>): CsvFile {
    CsvFile([CsvFields] + RenderRows(ts))
  }

  /** What a record becomes once written and read back: its ledger columns, as text. */
  function Persist(t: Record): (p: Record)
    ensures p.Keys == CsvFieldSet
  {
    map c | c in CsvFieldSet :: VStr(FieldText(Get(t, c, VStr(""))))
  }

  function PersistAll(ts: seq<Record>): (ps: seq<Record>)
    ensures |ps| == |ts|
    ensures forall i :: 0 <= i < |ts| ==> ps[i] == Persist(ts[i])
  {
    if ts == [] then [] else [Persist(ts[0])] + PersistAll(ts[1..])
  }

  /** A written cell reads back as the record's ledger column. */
  lemma ReadRenderedCell(t: Record, i: nat)
    requires i < |CsvFields|
    ensures CsvFields[i] in CsvFieldSet
    ensures ReadRow(CsvFields, RenderRow(t))[CsvFields[i]] == Persist(t)[CsvFields[i]]
  {
    CsvFieldsDistinct();
    ReadRowValue(CsvFields, RenderRow(t), i);
  }

  lemma ReadRenderedRow(t: Record)
    ensures ReadRow(CsvFields, RenderRow(t)) == Persist(t)
  {
    var r := ReadRow(CsvFields, RenderRow(t));
    var p := Persist(t);
    ReadRowKeys(CsvFields, RenderRow(t));
    assert r.Keys == p.Keys;
    forall c | c in r.Keys ensures r[c] == p[c] {
      var i :| 0 <= i < |CsvFields| && CsvFields[i] == c;
      ReadRenderedCell(t, i);
    }
  }

  lemma {:induction false} ReadRenderedRows(ts: seq<Record>)
    ensures DataRows(CsvFields, RenderRows(ts)) == PersistAll(ts)
  {
    if ts != [] {
      assert RenderRows(ts)[0] == RenderRow(ts[0]) != [];
      assert RenderRows(ts)[1..] == RenderRows(ts[1..]);
      ReadRenderedRows(ts[1..]);
      ReadRenderedRow(ts[0]);
    }
  }

  /** Reading a written ledger gives back each record's ledger columns, in order. */
  lemma ReadRender(ts: seq<Record>)
    ensures ReadRows(Render(ts)) == PersistAll(ts)
  {
    ReadRenderedRows(ts);
    assert Render(ts).lines[1..] == RenderRows(ts);
  }

  /** A written ledger passes the schema check and reloads as the written records' ledger columns. */
  lemma LoadRendered(ts: seq<Record>)
    ensures LoadExisting(Some(Render(ts))) == Success(Loaded(PersistAll(ts), HashesOf(PersistAll(ts))))
    ensures |LoadExisting(Some(Render(ts))).value.rows| == |ts|
  {
    ReadRender(ts);
  }

  // ---------------------------------------------------------------------
  // The order survives the round trip
  // ---------------------------------------------------------------------

  lemma NoSlashNoDate(s: string)
    requires '/' !in s
    ensures ParseDmy(s).None?
  {
    assert IndexOf(s, '/') == |s|;
  }

  lemma {:induction false} NatToStringNoSlash(n: nat)
    ensures '/' !in NatToString(n)
  {
    var r := NatToString(n);
    forall i | 0 <= i < |r| ensures r[i] != '/' {
      assert IsDigit(r[i]);
    }
  }

  /** The date part of the key reads the same from the written text. */
  lemma PersistedDate(v: Value)
    ensures ParseDateForSort(VStr(FieldText(v))) == ParseDateForSort(v)
  {
    match v
    case VStr(_) =>
    case VNone => NoSlashNoDate("");
    case VInt(n) =>
      NatToStringNoSlash(if n < 0 then -n else n);
      assert '/' !in IntToString(n) by {
        if n < 0 {
          assert IntToString(n) == "-" + NatToString(-n);
        }
      }
      NoSlashNoDate(IntToString(n));
  }

  lemma PersistValue(t: Record, c: string)
    requires c in CsvFieldSet
    ensures Get(Persist(t), c, VNone) == VStr(FieldText(Get(t, c, VStr(""))))
  {
  }

  /** A re-read ledger row has no `_parse_seq`, so it orders by the `txn_id` it was written with. */
  lemma PersistedOrder(t: Record, n: int)
    ensures RowOrder(Persist(t["txn_id" := VInt(n)])) == n
  {
    CsvFieldsDistinct();
    CsvFieldNames();
    var p := Persist(t["txn_id" := VInt(n)]);
    assert Get(p, ParseSeqKey, VNone) == VNone;
    assert Get(p, "txn_id", VInt(0)) == VStr(IntToString(n));
    IntRoundTrip(n);
  }

  /** The written post date is the text of the record's own post date; renumbering does not touch it. */
  lemma PersistedPostDateText(t: Record, n: int)
    ensures Get(Persist(t["txn_id" := VInt(n)]), "post_date", VNone) == VStr(FieldText(Get(t, "post_date", VNone)))
  {
    CsvFieldNames();
    var u := t["txn_id" := VInt(n)];
    PersistValue(u, "post_date");
    assert "post_date" != "txn_id";
  }

  /** A re-read ledger row has the post date it was written with, as far as the sort is concerned. */
  lemma PersistedPostDate(t: Record, n: int)
    ensures ParseDateForSort(Get(Persist(t["txn_id" := VInt(n)]), "post_date", VNone)) ==
      ParseDateForSort(Get(t, "post_date", VNone))
  {
    PersistedPostDateText(t, n);
    PersistedDate(Get(t, "post_date", VNone));
  }

  /** A re-read ledger row orders by its post date, then by the `txn_id` it was written with. */
  lemma PersistedKey(t: Record, n: int)
    ensures Key(Persist(t["txn_id" := VInt(n)])) == SortKey(Key(t).date, n)
  {
    PersistedOrder(t, n);
    PersistedPostDate(t, n);
  }

  /** Keys (d, i + 1) and (d', j + 1) with d no later than d' and i < j are in order. */
  lemma RenumberedKeysInOrder(a: SortKey, b: SortKey, i: int, j: int)
    requires KeyLe(a, b) && i < j
    ensures KeyLe(SortKey(a.date, i + 1), SortKey(b.date, j + 1))
  {
  }

  /** A renumbered ledger read back orders by (post date, position + 1). */
  lemma PersistedKeys(sorted: seq<Record>, numbered: seq<Record>)
    requires Renumbered(sorted, numbered)
    ensures forall i :: 0 <= i < |numbered| ==> Key(PersistAll(numbered)[i]) == SortKey(Key(sorted[i]).date, i + 1)
  {
    forall i | 0 <= i < |numbered| ensures Key(PersistAll(numbered)[i]) == SortKey(Key(sorted[i]).date, i + 1) {
      PersistedKey(sorted[i], i + 1);
    }
  }

  /** Rows read back from the ledger carry every ledger column and no `_parse_seq`. */
  lemma PersistedSortable(ts: seq<Record>)
    ensures forall r :: r in PersistAll(ts) ==> Sortable(r)
  {
    CsvFieldsDistinct();
  }

  /** The rows of a sorted, renumbered ledger as read back are sorted and sortable. */
  lemma PersistedSorted(sorted: seq<Record>, numbered: seq<Record>)
    requires Sorted(sorted) && Renumbered(sorted, numbered)
    ensures Sorted(PersistAll(numbered))
    ensures forall r :: r in PersistAll(numbered) ==> Sortable(r)
  {
    var rows := PersistAll(numbered);
    PersistedKeys(sorted, numbered);
    PersistedSortable(numbered);
    forall i, j | 0 <= i < j < |rows| ensures KeyLe(Key(rows[i]), Key(rows[j])) {
      RenumberedKeysInOrder(Key(sorted[i]), Key(sorted[j]), i, j);
    }
  }

  /**
   * A ledger sorted and renumbered, once written and read back, is sorted
   * again: its rows order by (post date, txn_id), and txn_id grows with the
   * position, so sorting it once more changes nothing.
   */
  lemma ReloadedLedgerSorted(sorted: seq<Record>, numbered: seq<Record>)
    requires Sorted(sorted) && Renumbered(sorted, numbered)
    ensures Sorted(ReadRows(Render(numbered)))
    ensures StableSort(ReadRows(Render(numbered))) == ReadRows(Render(numbered))
    ensures forall r :: r in ReadRows(Render(numbered)) ==> Sortable(r)
  {
    ReadRender(numbered);
    PersistedSorted(sorted, numbered);
    SortSortedIdentity(PersistAll(numbered));
  }

  // ---------------------------------------------------------------------
  // What a reload gives the next import
  // ---------------------------------------------------------------------

  /** No value of the record is an integer: every value the reader yields is text or None. */
  predicate TextValues(d: Record) {
    forall x :: x in d ==> !d[x].VInt?
  }

  lemma {:induction false} ZipText(header: seq<string>, cells: seq<string>, k: nat)
    requires k <= |header| && k <= |cells|
    ensures TextValues(Zip(header, cells, k))
  {
    if k > 0 {
      ZipText(header, cells, k - 1);
    }
  }

  lemma {:induction false} FillMissingText(d: Record, names: seq<string>)
    requires TextValues(d)
    ensures TextValues(FillMissing(d, names))
    decreases |names|
  {
    if names != [] {
      FillMissingText(d[names[0] := VNone], names[1..]);
    }
  }

  lemma {:induction false} DataRowsText(header: seq<string>, lines: seq<seq<string>>)
    ensures forall r :: r in DataRows(header, lines) ==> TextValues(r)
  {
    if lines != [] {
      DataRowsText(header, lines[1..]);
      var k := Min(|header|, |lines[0]|);
      ZipText(header, lines[0], k);
      FillMissingText(Zip(header, lines[0], k), header[k..]);
    }
  }

  /** The header of a ledger file has no `_parse_seq` column, as in every file `write_master_csv` writes. */
  predicate NoSeqColumn(file: Option<CsvFile>) {
    file.None? || file.value.lines == [] || ParseSeqKey !in file.value.lines[0]
  }

  lemma RenderedNoSeqColumn(ts: seq<Record>)
    ensures NoSeqColumn(Some(Render(ts)))
  {
    CsvFieldsDistinct();
  }

  /** Rows that pass the schema check carry every ledger column, only text, and can be sorted. */
  lemma LoadedRowsShape(file: Option<CsvFile>)
    requires NoSeqColumn(file) && LoadExisting(file).Success?
    ensures forall r :: r in LoadExisting(file).value.rows ==> CsvFieldSet <= r.Keys && TextValues(r) && Sortable(r)
  {
    if file.Some? && file.value.lines != [] {
      var header := file.value.lines[0];
      var rows := ReadRows(file.value);
      DataRowsKeys(header, file.value.lines[1..]);
      DataRowsText(header, file.value.lines[1..]);
      if rows != [] {
        assert rows[0] in rows;
        assert CsvFieldSet - rows[0].Keys == {};
        forall c | c in CsvFieldSet ensures c in rows[0].Keys {
          assert c !in CsvFieldSet - rows[0].Keys;
        }
        assert "post_date" in CsvFieldSet;
        forall r | r in rows ensures CsvFieldSet <= r.Keys && Sortable(r) {
          assert r.Keys == rows[0].Keys;
          assert ParseSeqKey !in r;
        }
      }
    }
  }

  /** A textual hash value reads back unchanged once written. */
  lemma PersistedHash(t: Record, h: string)
    requires !Get(t, "hash", VNone).VInt? && h != []
    ensures Get(Persist(t), "hash", VNone) == VStr(h) <==> Get(t, "hash", VNone) == VStr(h)
  {
    assert "hash" in CsvFieldSet;
  }

  /** The j-th written row carries the hash of the j-th record. */
  lemma WrittenRowHash(sorted: seq<Record>, j: nat, h: string)
    requires j < |sorted| && !Get(sorted[j], "hash", VNone).VInt? && h != []
    ensures Get(PersistAll(Numbered(sorted))[j], "hash", VNone) == VStr(h) <==> Get(sorted[j], "hash", VNone) == VStr(h)
  {
    var n := Numbered(sorted)[j];
    assert Get(n, "hash", VNone) == Get(sorted[j], "hash", VNone);
    PersistedHash(n, h);
  }

  /** A hash of the ledger is a hash of the sorted, renumbered, written ledger. */
  lemma WrittenHashKept(ts: seq<Record>, sorted: seq<Record>, i: nat, h: string)
    requires multiset(sorted) == multiset(ts) && forall t :: t in ts ==> !Get(t, "hash", VNone).VInt?
    requires i < |ts| && h != [] && Get(ts[i], "hash", VNone) == VStr(h)
    ensures h in HashesOf(PersistAll(Numbered(sorted)))
  {
    assert ts[i] in multiset(sorted);
    var j :| 0 <= j < |sorted| && sorted[j] == ts[i];
    WrittenRowHash(sorted, j, h);
    HashesOfIff(PersistAll(Numbered(sorted)), h);
  }

  /** A hash of the written ledger comes from a record of the ledger. */
  lemma WrittenHashFrom(ts: seq<Record>, sorted: seq<Record>, j: nat, h: string)
    requires multiset(sorted) == multiset(ts) && forall t :: t in ts ==> !Get(t, "hash", VNone).VInt?
    requires j < |sorted| && h != [] && Get(PersistAll(Numbered(sorted))[j], "hash", VNone) == VStr(h)
    ensures h in HashesOf(ts)
  {
    assert sorted[j] in multiset(ts);
    var i :| 0 <= i < |ts| && ts[i] == sorted[j];
    WrittenRowHash(sorted, j, h);
    HashesOfIff(ts, h);
  }

  /** Sorting, renumbering, writing and reading back keeps the ledger's hash set. */
  lemma WrittenHashes(ts: seq<Record>)
    requires forall t :: t in ts ==> !Get(t, "hash", VNone).VInt?
    ensures HashesOf(PersistAll(Numbered(StableSort(ts)))) == HashesOf(ts)
  {
    var rows := PersistAll(Numbered(StableSort(ts)));
    forall h ensures h in HashesOf(rows) <==> h in HashesOf(ts) {
      HashesOfIff(rows, h);
      HashesOfIff(ts, h);
      if h in HashesOf(ts) {
        var i :| 0 <= i < |ts| && Get(ts[i], "hash", VNone) == VStr(h);
        WrittenHashKept(ts, StableSort(ts), i, h);
      }
      if h in HashesOf(rows) {
        var j :| 0 <= j < |rows| && Get(rows[j], "hash", VNone) == VStr(h);
        WrittenHashFrom(ts, StableSort(ts), j, h);
      }
    }
  }

  /** A record's written columns other than `txn_id` do not depend on its `txn_id`. */
  lemma PersistIgnoresId(t: Record, n: int)
    ensures Persist(t["txn_id" := VInt(n)]) - {"txn_id"} == Persist(t) - {"txn_id"}
  {
    var a := Persist(t["txn_id" := VInt(n)]) - {"txn_id"};
    var b := Persist(t) - {"txn_id"};
    assert a.Keys == b.Keys;
    forall c | c in a.Keys ensures a[c] == b[c] {
      assert Get(t["txn_id" := VInt(n)], c, VStr("")) == Get(t, c, VStr(""));
    }
  }

  /**
   * A rewrite neither loses nor invents a record: every record written
   * reads back with the same ledger columns apart from its new `txn_id`,
   * and every row read back is such a record.
   */
  lemma WrittenRecords(ts: seq<Record>)
    ensures forall t :: t in ts ==>
      exists s :: s in PersistAll(Numbered(StableSort(ts))) && s - {"txn_id"} == Persist(t) - {"txn_id"}
    ensures forall s :: s in PersistAll(Numbered(StableSort(ts))) ==>
      exists t :: t in ts && s - {"txn_id"} == Persist(t) - {"txn_id"}
  {
    var sorted := StableSort(ts);
    var rows := PersistAll(Numbered(sorted));
    forall t | t in ts ensures exists s: Record :: s in rows && s - {"txn_id"} == Persist(t) - {"txn_id"} {
      assert t in multiset(sorted);
      var i :| 0 <= i < |sorted| && sorted[i] == t;
      PersistIgnoresId(t, i + 1);
      assert rows[i] in rows;
    }
    forall s: Record | s in rows ensures exists t: Record :: t in ts && s - {"txn_id"} == Persist(t) - {"txn_id"} {
      var i :| 0 <= i < |rows| && rows[i] == s;
      PersistIgnoresId(sorted[i], i + 1);
      assert sorted[i] in multiset(ts);
    }
  }

  // ---------------------------------------------------------------------
  // The ledger file
  // ---------------------------------------------------------------------

  datatype WriteError = WriteFailed

  /** The master CSV: absent, or the file's current contents. */
  class LedgerFile {
    var content: Option<CsvFile>

    constructor (initial: Option<CsvFile>)
      ensures content == initial
    {
      content := initial;
    }

    /** `load_existing_csv(MASTER_CSV)` */
    function Load(): Result<Loaded, LoadError>
      reads this
    {
      LoadExisting(content)
    }

    /**
     * `write_master_csv`: sort by `sort_key`, set `txn_id` to 1..N, then
     * replace the file with the rendered ledger. `writeOk` is whether the
     * temporary file is written and moved into place; when it is not, the
     * old file is left as it was and the call fails.
     */
    method WriteMaster(ts: seq<Record>, writeOk: bool) returns (r: Result<seq<Record>, WriteError>)
      requires forall t :: t in ts ==> Sortable(t)
      modifies this
      ensures writeOk ==> r == Success(Numbered(StableSort(ts))) && content == Some(Render(r.value))
      ensures !writeOk ==> r == Failure(WriteFailed) && content == old(content)
    {
      var sorted := StableSort(ts);
      var numbered := Renumber(sorted);
      if writeOk {
        content := Some(Render(numbered));
        r := Success(numbered);
      } else {
        r := Failure(WriteFailed);
      }
    }
  }

  /** The ledger as written, read back, is ordered by (post date, txn_id). */
  lemma WrittenLedgerSorted(ts: seq<Record>, numbered: seq<Record>)
    requires Renumbered(StableSort(ts), numbered)
    ensures Sorted(PersistAll(numbered))
  {
    SortSorted(ts);
    PersistedSorted(StableSort(ts), numbered);
  }
}
