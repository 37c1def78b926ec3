/**
 * Transaction records. The source keeps every transaction as a Python
 * dictionary whose keys grow as the record travels through the pipeline,
 * so a record is modelled as a map from key to a dynamically typed value.
 */
module Records {

  /** A value held in a transaction dictionary: a string, an integer or None. */
  datatype Value = VStr(s: string) | VInt(i: int) | VNone

  type Record = map<string, Value>

  /** Python's `d.get(key, default)` */
  function Get(r: Record, key: string, default: Value): (v: Value)
    ensures key in r ==> v == r[key]
    ensures key !in r ==> v == default
  {
    if key in r then r[key] else default
  }

  /** Python truthiness of a value */
  predicate Truthy(v: Value) {
    match v
    case VStr(s) => s != []
    case VInt(i) => i != 0
    case VNone => false
  }

  /** The string inside a value, or "" when it holds no string. */
  function StrOr(v: Value): string {
    if v.VStr? then v.s else ""
  }

  /** The twelve columns of the master ledger, in header order. */
  const CsvFields: seq<string> := [
    "txn_id", "value_date", "post_date", "details", "ref_no",
    "debit", "credit", "balance", "txn_type", "account_source",
    "imported_at", "hash"
  ]

  const CsvFieldSet: set<string> := set f | f in CsvFields

  /** The ephemeral within-document sequence number; it is never written to the ledger. */
  const ParseSeqKey: string := "_parse_seq"

  /** Columns the master ledger header holds are pairwise distinct. */
  lemma CsvFieldsDistinct()
    ensures forall i, j :: 0 <= i < j < |CsvFields| ==> CsvFields[i] != CsvFields[j]
    ensures ParseSeqKey !in CsvFieldSet
  {
  }

  /** The ledger columns by name. */
  lemma CsvFieldNames()
    ensures "txn_id" in CsvFieldSet && "value_date" in CsvFieldSet && "post_date" in CsvFieldSet
    ensures "details" in CsvFieldSet && "ref_no" in CsvFieldSet && "debit" in CsvFieldSet
    ensures "credit" in CsvFieldSet && "balance" in CsvFieldSet && "txn_type" in CsvFieldSet
    ensures "account_source" in CsvFieldSet && "imported_at" in CsvFieldSet && "hash" in CsvFieldSet
  {
    assert CsvFields[0] in CsvFields && CsvFields[1] in CsvFields && CsvFields[2] in CsvFields;
    assert CsvFields[3] in CsvFields && CsvFields[4] in CsvFields && CsvFields[5] in CsvFields;
    assert CsvFields[6] in CsvFields && CsvFields[7] in CsvFields && CsvFields[8] in CsvFields;
    assert CsvFields[9] in CsvFields && CsvFields[10] in CsvFields && CsvFields[11] in CsvFields;
  }
}
