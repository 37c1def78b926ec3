# SBI statement importer — a Dafny model

This project models the row-to-ledger pipeline of a tool that imports State Bank of India
account statements. The tool is a command line importer (`parse_sbi_statement.py`) and an
HTTP service (`api.py`). It does the following:

- It opens a statement PDF and rejects a document without pages or without the bank's
  marker on its first page.
- It walks every table row of every page in reading order. It classifies each row and
  normalises the fields of each transaction row: amounts, dates, the description and the
  reference number. Each kept row becomes a record numbered by a dense `_parse_seq`.
- It fingerprints each record with SHA-256 over five financial fields joined by `|`,
  cut to 32 hex digits.
- It merges the records into a master CSV ledger, skipping every record whose fingerprint
  the ledger already knows.
- When anything is new, it rewrites the ledger:
  - sorted by post date, with an unparseable date last, then by row order;
  - stably;
  - with `txn_id` set to 1..N.

The HTTP service adds three things. It checks uploads: the extension, a 50 MB cap and the
`%PDF-` magic bytes. It shapes every answer through one view of a ledger row. And it
filters and pages the ledger for `GET /transactions`.

Module by module:

- `Wrappers`: Option and Result.
- `Records`: a record is a Python dictionary, modelled as `map<string, Value>` with
  `Value = VStr | VInt | VNone`. This module also holds the twelve ledger columns.
- `Text`: the string operations the code uses. These include `str.strip`, `str.lower`,
  `in`, `split`, `replace`, `re.sub(r"\s+", " ", …)`, `int(…)` and `str(int)`.
- `Fields`: `parse_amount`, `is_date` (with `strptime("%d/%m/%Y")` written out),
  `is_transaction_row`, `is_summary_row`, `extract_ref_number` and `clean_description`.
- `Fingerprint`: `compute_hash`. The SHA-256 digest is a parameter: any function that returns
  64 lower-case hex digits.
- `Extractor`: the page, table and row loops of `parse_pdf`, written as methods. They are
  proved equal to a function that emits one record per kept row in reading order.
- `Ordering`:
  - `parse_date_for_sort` and `sort_key`;
  - the stable sort, written as an insertion sort that is proved sorted, a permutation and
    stable;
  - the renumbering loop.
- `Merge`: the dedup loop. It appears twice in the source with the same logic, so it is
  modelled once, as a method. The method is proved equal to a function of the records, their
  fingerprints and the known hash set.
- `LedgerStore`:
  - `load_existing_csv`, covering `csv.DictReader` over a file given by its lines, the schema
    check and the hash set;
  - `write_master_csv`, covering the sort, the renumbering and a `csv.DictWriter` with
    `extrasaction="ignore"`;
  - the ledger file as a class whose one field is the file's content.
- `ApiViews`: `_validate_pdf` and `_txn_to_dict`.
- `Api`: `POST /parse`.
- `Importing`: what one import does to the ledger, as functions of the ledger file's
  content, and what the service promises about the file it writes.
- `Saving`: `POST /parse-and-save`. The block under the ledger lock is one method.
- `Cli`: `main`'s loop over the command line's statements and the final write.
- `TransactionQuery`: the date, type, offset and limit logic of `GET /transactions`.

Time, the digest, the PDF library and the outcome of the atomic file replace are parameters:
`now`, `digest`, `doc` and `writeOk`.

In `main`, the sequence offset is the ledger's length when the program starts
(parse_sbi_statement.py:316), and it stays the same for every statement of one run. So
within one run, a later statement's record can sort before an earlier statement's record
of the same day. `Cli.RunBatches` keeps this constant offset.

## Model

| member | source | states |
|---|---|---|
| Records.CsvFieldsDistinct | parse_sbi_statement.py:47-51 | The twelve ledger columns are pairwise distinct, and none is `_parse_seq`. |
| Fields.ParseAmount | parse_sbi_statement.py:67-75 | A missing or empty cell, or one that strips to "-", gives "". Other text that float rejects also gives "". A present cell not stripping to "-" whose comma-free stripped text float accepts gives exactly that text. Any non-empty result has no ',', equals the stripped cell with its commas removed, and is a float literal once stripped. |
| Fields.AmountKept | parse_sbi_statement.py:70-75 | Unpadded text other than "-" that float accepts once its commas are gone is returned without them. |
| Fields.AmountWithSeparator | parse_sbi_statement.py:67-75 | "1,234.50" normalises to "1234.50". |
| Fields.AmountDash | parse_sbi_statement.py:68-69 | A lone "-" is an absent amount, "". |
| Fields.AmountNotNumber | parse_sbi_statement.py:70-74 | Text that float rejects, such as "Dr", is an absent amount, "". |
| Fields.NoBarInAmount | parse_sbi_statement.py:67-75 | A normalised amount never contains '\|', the fingerprint's delimiter. |
| Fields.ParseDmy | parse_sbi_statement.py:78-85 | What `strptime(…, "%d/%m/%Y")` accepts is a real calendar date: month 1..12, a day within that month (leap years included) and a year of at least 1. |
| Fields.ParseFormatDmy | parse_sbi_statement.py:78-85 | Every valid date written as DD/MM/YYYY parses back to itself, so the date test accepts every well-formed statement date. |
| Fields.NoBarInDate | parse_sbi_statement.py:78-85 | Text that parses as a date contains no '\|'. |
| Fields.ShortRowIsNoTransaction | parse_sbi_statement.py:88-98 | A row of fewer than seven cells is never a transaction row, and an empty row is never a summary row. |
| Fields.SummaryRowIff | parse_sbi_statement.py:94-98 | A row is a summary row exactly when it is non-empty and "Statement Summary" or "Brought Forward" occurs at some position of its first cell. |
| Fields.ContainsIff | parse_sbi_statement.py:98 | The substring test holds exactly when the pattern occurs at some position. |
| Fields.RefToken | parse_sbi_statement.py:120 | A match is 10 to 13 digits. |
| Fields.RefTokenIff | parse_sbi_statement.py:120 | The greedy reading of `^(\d{10,13})\b` yields `t` exactly when some length n satisfies the regex, read literally: n in 10..13, n leading digits, then the end or a non-word character. `t` is then the first n characters. |
| Fields.LongDigitRunIsNoRef | parse_sbi_statement.py:120 | A line that starts with 14 or more digits yields no reference number. |
| Fields.ExtractRefNumber | parse_sbi_statement.py:116-123 | The reference number is "" or 10 to 13 digits. |
| Fields.FirstRefIsFirstMatch | parse_sbi_statement.py:119-123 | The result comes from the first line whose stripped text matches, and no earlier line matches. With no matching line, the result is "". |
| Fields.CleanDescriptionShape | parse_sbi_statement.py:126-130 | The cleaned description has no '\n' and no two adjacent whitespace characters. Its only whitespace is blanks, and it neither starts nor ends with whitespace. |
| Fields.CleanDescriptionIdempotent | parse_sbi_statement.py:126-130 | Cleaning a cleaned description changes nothing. |
| Fields.CleanDescriptionKeepsText | parse_sbi_statement.py:126-130 | Cleaning keeps every non-whitespace character in order, with a '\|' where each line break was. |
| Text.JoinSplit | parse_sbi_statement.py:119 | Splitting on a character and joining with it again gives back the string. |
| Text.Collapse | parse_sbi_statement.py:130 | `re.sub(r"\s+", " ", …)` leaves only single blanks as whitespace, and is empty exactly when its input is. |
| Text.IntRoundTrip | parse_sbi_statement.py:240 | `int(str(n)) == n`, so an integer `txn_id` written to the ledger reads back as the same number. |
| Fingerprint.ComputeHash | parse_sbi_statement.py:218-225 | The fingerprint is 32 lower-case hex digits. |
| Fingerprint.SameFinancialFieldsSameHash | parse_sbi_statement.py:218-225 | Two records that agree on post date, value date, debit, credit and balance get the same fingerprint, whatever else differs. |
| Fingerprint.HashInputInjective | parse_sbi_statement.py:221-224 | When the date and the amounts hold no '\|', equal hash inputs mean equal five fields. Changing any one of them changes what is hashed. |
| Extractor.KeptRowShape | parse_sbi_statement.py:177-193 | A row the walk keeps has at least seven cells, is not a summary row, has a date in its first cell and has an amount. |
| Extractor.EmitCount | parse_sbi_statement.py:177-209 | One record per kept row. |
| Extractor.EmitNumbering | parse_sbi_statement.py:168-209 | The i-th emitted record has `_parse_seq` i. |
| Extractor.EmitAt | parse_sbi_statement.py:170-209 | Every kept row is emitted at the position given by the count of kept rows before it, with that number. No row is lost or reordered. |
| Extractor.EmitOrigin | parse_sbi_statement.py:170-209 | Every emitted record is the normalised fields of some kept row, with its position as `_parse_seq`. |
| Extractor.ExtractedFromTransactionRows | parse_sbi_statement.py:177-209 | Each record of a document comes from a row of the document that has seven or more cells, is not a summary row, has a date and has an amount. |
| Extractor.ExtractedWellFormed | parse_sbi_statement.py:185-208 | Every record has these properties: string fields and a post date that parses; at least one amount; a `txn_type` of "debit", else "credit", else "" after the amounts; the "sbi_email" source; a `_parse_seq`; no hash, time or id yet; no '\|' in the hashed date and amounts. |
| Extractor.WalkTable | parse_sbi_statement.py:177-209 | The row loop over one table extends the emitted records by those of the table's rows and continues the numbering. |
| Extractor.Walk | parse_sbi_statement.py:170-209 | The page and table loops emit exactly the records of all rows in reading order. |
| Extractor.ParsePdf | parse_sbi_statement.py:155-211 | No pages gives an error, and so does a first page without the issuer marker, before any row is read. Otherwise the result is the walk's records and the page count. |
| Ordering.ParseDateForSort | parse_sbi_statement.py:228-232 | The sort date is the parsed date exactly when the value is a string that parses; otherwise it is the maximum. |
| Ordering.KeyOrder | parse_sbi_statement.py:235-243 | The tuple order on (date, sequence) is a strict total order, and every parsed date precedes the maximum. |
| Ordering.StableSort | parse_sbi_statement.py:265 | The sort returns a permutation of its input. |
| Ordering.SortSorted | parse_sbi_statement.py:265 | The sorted ledger is non-decreasing by `sort_key`. |
| Ordering.SortStable | parse_sbi_statement.py:265 | Records with equal keys keep their input order. |
| Ordering.SortSortedIdentity | parse_sbi_statement.py:265 | Sorting an already sorted list changes nothing. |
| Ordering.Renumber | parse_sbi_statement.py:266-267 | The renumbering loop gives the i-th record (from zero) `txn_id` i + 1 and changes nothing else. |
| Ordering.RenumberedDense | parse_sbi_statement.py:266-267 | After renumbering, the ids are 1..N in the final order and pairwise distinct. Every other field of each record is unchanged. |
| Ordering.RenumberKeepsKey | parse_sbi_statement.py:237-243 | A record that carries `_parse_seq` keeps its sort key when its `txn_id` changes. |
| Merge.StampFields | parse_sbi_statement.py:343-346 | An accepted record gains the hash, the import time and `txn_id` 0. Its `_parse_seq` grows by the offset, and every other field is kept. |
| Merge.DedupCounts | parse_sbi_statement.py:336-349 | new + duplicates = records. |
| Merge.DedupKnown | parse_sbi_statement.py:348 | Afterwards the hash set is the initial set plus every record's hash. |
| Merge.FreshIndicesIff | parse_sbi_statement.py:338-348 | A position is accepted exactly when its hash is neither known beforehand nor the hash of an earlier record. |
| Merge.DedupAccepts | parse_sbi_statement.py:336-349 | The loop accepts exactly the fresh records, in input order, each stamped with its own hash. |
| Merge.AcceptedFresh | parse_sbi_statement.py:336-349 | Accepted hashes are absent from the initial set and pairwise distinct. Each accepted `_parse_seq` grew by exactly the offset. |
| Merge.AcceptedKnown | parse_sbi_statement.py:348 | Each accepted record's hash is in the final set, and the final set contains the initial one. |
| Merge.DedupKnownAccepted | parse_sbi_statement.py:343-348 | Every hash the loop adds is carried by an accepted record. |
| Merge.AllKnownAcceptsNothing | parse_sbi_statement.py:339-341 | When every hash is already known, nothing is accepted and every record counts as a duplicate. |
| Merge.RerunAcceptsNothing | parse_sbi_statement.py:336-349 | Running the loop again over the same records, with the set it left behind, accepts nothing. |
| Merge.Deduplicate | parse_sbi_statement.py:336-349 | The loop's new records, hash set and counters are those of the dedup function, and new + duplicates = records. The loop of the parse-and-save endpoint (api.py:141-153) is the same and runs through this method too. |
| LedgerStore.ReadRowKeys | parse_sbi_statement.py:250-251 | Every row the reader yields has exactly the header's names as keys. |
| LedgerStore.ReadRowValue | parse_sbi_statement.py:250-251 | With distinct header names, each name gets its own cell, or None when the line is short. |
| LedgerStore.HashesOfIff | parse_sbi_statement.py:259 | The hash set is exactly the non-empty hash values of the rows. |
| LedgerStore.HashesOfConcat | parse_sbi_statement.py:259 | The hash set of two row lists together is the union of theirs. |
| LedgerStore.LoadFailsIff | parse_sbi_statement.py:252-258 | Loading fails exactly when the file has a data row and its header lacks a ledger column. The error names exactly the missing columns. |
| LedgerStore.LoadedHashes | parse_sbi_statement.py:259 | A loaded ledger's hash set is the set of its rows' non-empty hash values. |
| LedgerStore.LoadedRowsShape | parse_sbi_statement.py:246-260 | Rows that pass the schema check carry every ledger column, hold only text or None, and can be sorted. |
| LedgerStore.RenderRow | parse_sbi_statement.py:273-275 | A written line holds the record's value for each ledger column in header order, with "" for a missing one. Other keys are ignored. |
| LedgerStore.ReadRender | parse_sbi_statement.py:246-275 | Reading a written ledger gives back each record's ledger columns, as text and in order. |
| LedgerStore.LoadRendered | parse_sbi_statement.py:246-275 | A ledger the writer produced passes the schema check and reloads with one row per record written. |
| LedgerStore.PersistedKey | parse_sbi_statement.py:235-243 | A re-read row orders by its post date, then by the `txn_id` it was written with. |
| LedgerStore.ReloadedLedgerSorted | parse_sbi_statement.py:263-279 | A sorted, renumbered ledger, once written and read back, is sorted again, and its rows are sortable. Sorting it once more changes nothing, so ledger order survives every later import. |
| LedgerStore.PersistIgnoresId | parse_sbi_statement.py:266-275 | A record's written columns other than `txn_id` do not depend on the `txn_id` the renumbering gives it. |
| LedgerStore.WrittenRecords | parse_sbi_statement.py:263-279 | Sorting, renumbering, writing and reading back loses no record and invents none: each record reads back with every ledger column but `txn_id` unchanged, and each row read back comes from a record. |
| LedgerStore.WrittenHashes | parse_sbi_statement.py:263-279 | Sorting, renumbering, writing and reading back keeps the ledger's hash set. |
| LedgerStore.LedgerFile.WriteMaster | parse_sbi_statement.py:263-279 | On success the file holds the rendered, stably sorted and renumbered ledger. When the write fails, the old file is left untouched. |
| LedgerStore.WrittenLedgerSorted | parse_sbi_statement.py:265-275 | The written ledger, as read back, is ordered by (post date, txn_id). |
| ApiViews.ValidatePdf | api.py:50-57 | The name is rejected exactly when its lower-case form does not end in ".pdf". Then "too large" exactly when the size exceeds 50·1024·1024. Then "not a PDF" exactly when the first five bytes are not "%PDF-". Otherwise the upload is accepted. |
| ApiViews.ExtensionIgnoresCase | api.py:52 | A name ending in ".PDF" passes the extension test as one ending in ".pdf" does. |
| ApiViews.ValidateReadsHeadOnly | api.py:50-57 | The verdict depends only on the name, the size and the first five bytes. |
| ApiViews.TxnToDict | api.py:74-90 | The view exists exactly when the hash is a string or missing (the slice raises otherwise). Its keys are exactly the twelve ledger columns. |
| ApiViews.TxnToDictFields | api.py:74-90 | `txn_id` is the first 16 characters of the hash and `hash` the hash itself. `account_source` defaults to "sbi_email", and every other column is the record's value or "". |
| ApiViews.TxnToDictReadsColumns | api.py:74-90 | The view reads only the ledger columns other than `txn_id`. Renumbering and `_parse_seq` do not change it. |
| ApiViews.TxnToDictIdempotent | api.py:74-90 | Applying the view to its own output gives the same dictionary. |
| ApiViews.Views | api.py:114 | The views of a list exist exactly when every record has a view. They are the records' views one for one, in order. |
| Api.ExtractedMergeable | api.py:143-151 | Every record a document yields can enter the merge loop. |
| Api.ParsedViewFields | api.py:109-114 | In the `/parse` answer a record carries its fingerprint and the import time. Its id is 16 hex digits cut from the fingerprint. |
| Api.SameFieldsSameId | api.py:110-114 | Records that agree on the five fingerprinted fields get the same `/parse` id. |
| Api.LabelAll | api.py:110-112 | Each record gets its own fingerprint and the import time, and nothing else changes. |
| Api.ViewsOfLabelled | api.py:114 | Labelled records always have views, and each view is the labelled record's. |
| Api.ParseStatement | api.py:93-114 | A rejected upload gives its 400 error, and a document without pages or marker gives the 422 error. Otherwise the answer is the view of every parsed record, fingerprinted and time-stamped, in order. |
| Importing.SavedIffNew | api.py:155-160 | The ledger file changes exactly when at least one record is new. |
| Importing.ImportCounts | api.py:141-168 | "new" + "duplicates_skipped" = "parsed". |
| Importing.SavedLedgerShape | api.py:155-160 | The file written afterwards loads again, has no `_parse_seq` column and holds as many rows as the old ledger and the new records together. When nothing is new it loads as before. When it was rewritten, it lists its rows in ledger order: every old row and every new record reads back with all ledger columns but `txn_id` unchanged, and every row read back is one of them. |
| Importing.HashOfNonEmpty | parse_sbi_statement.py:218-225 | `compute_hash` gives every record the loop sees a non-empty fingerprint. |
| Importing.ImportedKnownIff | api.py:141-153 | A hash is known after the loop exactly when the ledger or one of the accepted records carries it. |
| Importing.SavedHashes | api.py:137-160 | After an import, the reloaded ledger's hash set is exactly the set the loop ended with. |
| Importing.ReimportAcceptsNothing | api.py:137-160 | Importing the same records again, at any later time, adds nothing: each is a duplicate. |
| Importing.MergedHashesDistinct | api.py:141-156 | A ledger without repeated hashes keeps that property once the new records are appended. |
| Importing.ImportedViewable | api.py:170 | Every accepted record has a view, so the answer can list the new records. |
| Importing.MergedSortable | api.py:156-157 | The old rows and the new records together can be sorted by the writer. |
| Saving.MergeIntoLedger | api.py:136-160 | A broken ledger gives its error without a write. Otherwise the block returns the new records, the duplicate count and len(existing) + len(new). The file is rewritten exactly when something is new. A failed write leaves the file as it was. |
| Saving.ParseAndSave | api.py:117-171 | Its error cases are a rejected upload, an unparseable document, a broken ledger and a failed write; each leaves the file unchanged. Otherwise: "pages" is the page count and "parsed" the record count; "new" + "duplicates_skipped" = "parsed"; "total_in_csv" is len(existing) + len(new); "new_transactions" are the views of the new records; the file is the saved merge. |
| Saving.ReuploadAddsNothing | api.py:117-171 | Uploading the same statement again after it was saved adds nothing: every record is skipped as a duplicate. |
| Cli.StatementRecords | parse_sbi_statement.py:318-331 | A missing file or a document that does not parse is skipped. Otherwise the document's records are taken, and they can enter the merge loop. |
| Cli.RunCounts | parse_sbi_statement.py:336-351 | Across all statements, every record is either new or a skipped duplicate. |
| Cli.RunFresh | parse_sbi_statement.py:336-349 | Across statements, no hash is accepted twice, and none that the ledger already had. |
| Cli.MainHashesDistinct | parse_sbi_statement.py:311-359 | A ledger without repeated hashes keeps that property once the new records of all statements are appended. |
| Cli.RunSortable | parse_sbi_statement.py:359-360 | The new records of all statements can be sorted by the writer. |
| Cli.StatementStep | parse_sbi_statement.py:318-349 | One more statement extends the loop state by that statement's pass, or leaves it alone when the statement is skipped. |
| Cli.MergeStatement | parse_sbi_statement.py:318-349 | One pass: a skipped statement adds nothing. Otherwise its records are deduplicated against the hashes known so far. |
| Cli.MergeStatements | parse_sbi_statement.py:315-349 | The loop's new records and hash set are those of the run over every statement that parses, in command line order. |
| Cli.ImportStatements | parse_sbi_statement.py:311-360 | A ledger that fails the schema check ends the program without a write. With nothing new, the file is untouched. Otherwise the ledger plus all new records is written sorted and renumbered. A failed write leaves the old file. |
| TransactionQuery.Filter | api.py:209-221 | A comprehension keeps exactly the rows its condition holds for. |
| TransactionQuery.FilterSubseq | api.py:209-221 | A comprehension keeps its rows in their order. |
| TransactionQuery.SafeParseDate | api.py:174-178 | A date exactly when the value is a string that parses; None otherwise. |
| TransactionQuery.MatchingIff | api.py:207-221 | Before paging, the rows are exactly the ledger rows every given filter keeps. |
| TransactionQuery.MatchesDates | api.py:207-221 | With a date bound, a kept row has a post date that parses and lies within the given bounds, so rows with unparseable dates are dropped. A type filter keeps rows whose `txn_type` equals the query, ignoring case. |
| TransactionQuery.SelectFailsIff | api.py:220-221 | The type filter fails, because `.lower()` of None raises, exactly when a date-filtered row has no text `txn_type`. |
| TransactionQuery.SelectPage | api.py:223-225 | The result is the window of the matching rows that starts at `offset` and holds at most `limit` rows, so offset applies before limit. |
| TransactionQuery.SelectSound | api.py:207-225 | The result is an order-preserving subsequence of the ledger rows. Every row in it matches, and it holds at most `limit` rows. |
| TransactionQuery.SelectComplete | api.py:207-221 | Without offset and limit, every matching row is returned. |
| TransactionQuery.GetTransactions | api.py:181-227 | A bad `from_date` is rejected first, then a bad `to_date`, before the file is looked at. A missing ledger gives an empty list, and a broken one its error. |
| TransactionQuery.GetTransactionsSound | api.py:181-227 | A successful answer is the view of an order-preserving subsequence of the loaded rows. All of them match the filters, and there are no more than `limit`. |

## Left out

- The PDF library: opening, decryption, `extract_text` and `extract_tables`. A document is
  given as its pages, each with an optional text and its tables.
- The password-error sniffing on open, `load_password` and the `.env` file. These are
  foreign exception text and configuration.
- `extract_statement_period`: the period is informational, and the period the endpoints echo
  back is not modelled. Neither is the file name.
- Parse failures other than "no pages" and "no marker", such as a corrupt or encrypted file.
  These come from the PDF library, and the model's document always opens.
- SHA-256 itself. The digest is any function that yields 64 lower-case hex digits.
- CSV tokenising and quoting, encodings and the byte-order mark, `tempfile.mkstemp`,
  `Path.replace` and `unlink`. A file is given by its lines of cells. The write either
  replaces the whole file or leaves it as it was (`writeOk`).
- Cells beyond the header, which `csv.DictReader` keeps under its `restkey`. They are
  dropped, since no ledger column reads them.
- `datetime.now`: the import time is a parameter.
- `find_sbi_pdfs`, the printing and `sys.exit` in `main`, and the floating-point totals it
  prints. A path is given as an optional document: None when the file does not exist.
- The `threading.Lock` of the parse-and-save endpoint. The locked block is one sequential
  method.
- FastAPI routing and the mapping of errors to HTTP status codes. The errors are datatype
  cases. Also left out are the temporary upload file of `_parse_uploaded_pdf` and the
  `/health` endpoint.
- Aliasing: the source mutates the same dictionaries in place. The dedup loop stamps them,
  and the writer renumbers them after they have been appended. The model builds new records
  instead, and it models `list.sort` as a function on a sequence.
- A crash of `main` on a broken ledger or a failed write is modelled as a `Failure` result.
- Unicode: `str.lower`, the regex classes `\d` and `\w`, and the digits `int()` and
  `strptime` accept are ASCII only in the model. Whitespace is the full `str.isspace` set.
  Underscores between digits, which `float()` and `int()` both accept, are not modelled.
  So a hand-edited `txn_id` such as "1_000" gets row order 0 in Ordering.RowOrder, where
  `sort_key` would give it 1000.
- Cli.MainHashesDistinct and Importing.MergedHashesDistinct: distinct hashes are proved for
  the merged list before it is sorted, not restated for the written file. The written file's
  hash set is covered by LedgerStore.WrittenHashes and Importing.SavedHashes.
- Ordering.RowOrder: a string `_parse_seq` is given order 0. Python compares the second
  half of the `(date, seq)` key only between two rows with the same sort date. So it raises
  `TypeError` only when a row with a string `_parse_seq` shares its sort date with a row
  whose order is an integer: a new record, or a row ordered by `int(txn_id)`. Otherwise
  Python sorts without error and orders string sequence numbers as text ("10" before "9").
  LedgerStore.LedgerFile.WriteMaster requires records without a string `_parse_seq`. So the
  model does not capture the ledgers Python still writes in that case, nor their text order.
  Every record the importer itself produces meets the requirement.
- Ordering.Key: a missing `post_date` is read as "no date". Python raises KeyError there, and
  WriteMaster's requirement excludes it.
- Saving.ParseAndSave, Saving.MergeIntoLedger and Cli.ImportStatements require a ledger file
  without a `_parse_seq` column. Rows read from such a file carry a string `_parse_seq`.
  Python's sort raises on these only when such a row shares its sort date with an
  integer-ordered row, such as a new record. Otherwise Python writes the file, with those
  rows ordered by their sequence text. The requirement also excludes such ledgers, for
  example one with a `_parse_seq` column and only January rows merged with a February
  statement. The model does not capture that case. `write_master_csv` never writes the column.
- Importing.SavedHashes and Importing.ReimportAcceptsNothing require a fingerprint function
  that is never empty, because an empty hash is not collected by `if r.get("hash")`.
  Importing.HashOfNonEmpty shows that `compute_hash` meets this.
- TransactionQuery.GetTransactions requires a limit of at least 1, the bound FastAPI
  enforces before the handler runs.
- ApiViews.PdfName and TransactionQuery.TypeMatches lower-case ASCII letters only.
