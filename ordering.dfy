/**
 * The ledger order of `write_master_csv`: records sort by post date
 * (unparseable dates last, as `datetime.max`), then by their row order,
 * with a stable sort; afterwards `txn_id` numbers them 1..N.
 */
module Ordering {
  import opened Wrappers
  import opened Text
  import opened Records
  import opened Fields

  /** A parsed post date, or `datetime.max` for one that does not parse. */
  datatype SortDate = On(date: Date) | Latest

  /** `parse_date_for_sort`: strptime with "%d/%m/%Y", ValueError and TypeError giving the maximum. */
  function ParseDateForSort(v: Value): (d: SortDate)
    ensures d.On? <==> v.VStr? && ParseDmy(v.s).Some?
    ensures d.On? ==> d.date == ParseDmy(v.s).value
  {
    match v
    case VStr(s) => (match ParseDmy(s) case Some(date) => On(date) case None => Latest)
    case _ => Latest
  }

  /**
   * The row-order part of `sort_key`: `_parse_seq` when present, otherwise
   * `int(txn.get("txn_id", 0))`, with 0 where that conversion fails.
   */
  function RowOrder(txn: Record): int {
    match Get(txn, ParseSeqKey, VNone)
    case VInt(n) => n
    case VStr(_) => 0 // not reached on sortable records
    case VNone =>
      match Get(txn, "txn_id", VInt(0))
      case VInt(n) => n
      case VStr(s) => ParseInt(s).GetOr(0)
      case VNone => 0
  }

  /**
   * The records the model sorts: a `post_date` key (otherwise KeyError) and
   * no string `_parse_seq`. Python compares a string `_parse_seq` only
   * against rows of the same sort date; it raises TypeError when one of
   * those has an integer order and otherwise orders such rows as text, a
   * case this predicate excludes.
   */
  predicate Sortable(txn: Record) {
    "post_date" in txn && !Get(txn, ParseSeqKey, VNone).VStr?
  }

  datatype SortKey = SortKey(date: SortDate, order: int)

  function Key(txn: Record): SortKey {
    SortKey(ParseDateForSort(Get(txn, "post_date", VNone)), RowOrder(txn))
  }

  predicate DateLt(a: Date, b: Date) {
    a.year < b.year || (a.year == b.year && (a.month < b.month || (a.month == b.month && a.day < b.day)))
  }

  predicate SortDateLt(a: SortDate, b: SortDate) {
    a.On? && (b.Latest? || DateLt(a.date, b.date))
  }

  /** Tuple comparison `(date, seq) < (date', seq')` */
  predicate KeyLt(a: SortKey, b: SortKey) {
    SortDateLt(a.date, b.date) || (a.date == b.date && a.order < b.order)
  }

  predicate KeyLe(a: SortKey, b: SortKey) {
    !KeyLt(b, a)
  }

  /** The key order is a strict total order, and every parsed date precedes the maximum. */
  lemma KeyOrder(a: SortKey, b: SortKey, c: SortKey)
    ensures !KeyLt(a, a)
    ensures KeyLt(a, b) && KeyLt(b, c) ==> KeyLt(a, c)
    ensures a == b || KeyLt(a, b) || KeyLt(b, a)
    ensures a.date.On? && b.date.Latest? ==> KeyLt(a, b)
  {
  }

  predicate Sorted(s: seq<Record>) {
    forall i, j :: 0 <= i < j < |s| ==> KeyLe(Key(s[i]), Key(s[j]))
  }

  /** Insert `x` before the first record whose key is strictly greater. */
  function Insert(s: seq<Record>, x: Record): (r: seq<Record>)
    ensures |r| == |s| + 1
    ensures multiset(r) == multiset(s) + multiset{x}
  {
    if s == [] then [x]
    else if KeyLt(Key(x), Key(s[0])) then [x] + s
    else
      assert s == [s[0]] + s[1..];
      [s[0]] + Insert(s[1..], x)
  }

  /** `list.sort(key=sort_key)`: a stable sort, here insertion of each record in input order. */
  function StableSort(s: seq<Record>): (r: seq<Record>)
    ensures |r| == |s|
    ensures multiset(r) == multiset(s)
  {
    if s == [] then []
    else
      assert s == s[..|s| - 1] + [s[|s| - 1]];
      Insert(StableSort(s[..|s| - 1]), s[|s| - 1])
  }

  lemma KeyLeTrans(a: SortKey, b: SortKey, c: SortKey)
    requires KeyLe(a, b) && KeyLe(b, c)
    ensures KeyLe(a, c)
  {
    KeyOrder(a, b, c);
    KeyOrder(c, a, b);
  }

  /** A lower bound of `s` and of `x` bounds `Insert(s, x)`. */
  lemma {:induction false} InsertBound(s: seq<Record>, x: Record, k: SortKey)
    requires forall i :: 0 <= i < |s| ==> KeyLe(k, Key(s[i]))
    requires KeyLe(k, Key(x))
    ensures forall i :: 0 <= i < |Insert(s, x)| ==> KeyLe(k, Key(Insert(s, x)[i]))
  {
    if s != [] && !KeyLt(Key(x), Key(s[0])) {
      InsertBound(s[1..], x, k);
    }
  }

  lemma {:induction false} InsertSorted(s: seq<Record>, x: Record)
    requires Sorted(s)
    ensures Sorted(Insert(s, x))
  {
    if s == [] {
    } else if KeyLt(Key(x), Key(s[0])) {
      forall j | 0 <= j < |s| ensures KeyLe(Key(x), Key(s[j])) {
        KeyLeTrans(Key(x), Key(s[0]), Key(s[j]));
      }
    } else {
      assert Sorted(s[1..]);
      InsertSorted(s[1..], x);
      InsertBound(s[1..], x, Key(s[0]));
    }
  }

  /** The sorted ledger is non-decreasing by (date-or-max, row order). */
  lemma {:induction false} SortSorted(s: seq<Record>)
    ensures Sorted(StableSort(s))
  {
    if s != [] {
      SortSorted(s[..|s| - 1]);
      InsertSorted(StableSort(s[..|s| - 1]), s[|s| - 1]);
    }
  }

  /** The records of `s` with key `k`, in order. */
  function WithKey(s: seq<Record>, k: SortKey): seq<Record> {
    if s == [] then []
    else (if Key(s[0]) == k then [s[0]] else []) + WithKey(s[1..], k)
  }

  lemma {:induction false} WithKeyAppend(s: seq<Record>, t: seq<Record>, k: SortKey)
    ensures WithKey(s + t, k) == WithKey(s, k) + WithKey(t, k)
  {
    if s == [] {
      assert s + t == t;
    } else {
      assert (s + t)[1..] == s[1..] + t;
      WithKeyAppend(s[1..], t, k);
    }
  }

  lemma {:induction false} AboveHasNoKey(s: seq<Record>, x: Record)
    requires Sorted(s) && s != [] && KeyLt(Key(x), Key(s[0]))
    ensures WithKey(s, Key(x)) == []
  {
    if |s| > 1 {
      assert KeyLe(Key(s[0]), Key(s[1]));
      assert Sorted(s[1..]);
      AboveHasNoKey(s[1..], x);
    }
  }

  lemma SortedTail(s: seq<Record>)
    requires Sorted(s) && s != []
    ensures Sorted(s[1..])
  {
    forall i, j | 0 <= i < j < |s| - 1 ensures KeyLe(Key(s[1..][i]), Key(s[1..][j])) {
      assert s[1..][i] == s[i + 1] && s[1..][j] == s[j + 1];
    }
  }

  lemma SeqAssoc(a: seq<Record>, b: seq<Record>, c: seq<Record>)
    ensures a + (b + c) == a + b + c
  {
  }

  lemma {:induction false} InsertWithKey(s: seq<Record>, x: Record, k: SortKey)
    requires Sorted(s)
    ensures WithKey(Insert(s, x), k) == WithKey(s, k) + (if Key(x) == k then [x] else [])
  {
    WithKeySingle(x, k);
    if s == [] {
    } else if KeyLt(Key(x), Key(s[0])) {
      assert Insert(s, x) == [x] + s;
      WithKeyAppend([x], s, k);
      if Key(x) == k {
        AboveHasNoKey(s, x);
      }
    } else {
      var tail := s[1..];
      SortedTail(s);
      InsertWithKey(tail, x, k);
      assert Insert(s, x) == [s[0]] + Insert(tail, x);
      WithKeyAppend([s[0]], Insert(tail, x), k);
      assert s == [s[0]] + tail;
      WithKeyAppend([s[0]], tail, k);
      SeqAssoc(WithKey([s[0]], k), WithKey(tail, k), if Key(x) == k then [x] else []);
    }
  }

  lemma WithKeySingle(x: Record, k: SortKey)
    ensures WithKey([x], k) == if Key(x) == k then [x] else []
  {
    assert [x][1..] == [];
  }

  /** Stability: the records sharing a key keep their input order. */
  lemma {:induction false} SortStable(s: seq<Record>, k: SortKey)
    ensures WithKey(StableSort(s), k) == WithKey(s, k)
  {
    if s != [] {
      var init := s[..|s| - 1];
      SortStable(init, k);
      SortSorted(init);
      InsertWithKey(StableSort(init), s[|s| - 1], k);
      assert s == init + [s[|s| - 1]];
      WithKeyAppend(init, [s[|s| - 1]], k);
      WithKeySingle(s[|s| - 1], k);
    }
  }

  lemma {:induction false} InsertLast(s: seq<Record>, x: Record)
    requires forall i :: 0 <= i < |s| ==> KeyLe(Key(s[i]), Key(x))
    ensures Insert(s, x) == s + [x]
  {
    if s != [] {
      InsertLast(s[1..], x);
    }
  }

  /** Sorting an already sorted ledger changes nothing. */
  lemma {:induction false} SortSortedIdentity(s: seq<Record>)
    requires Sorted(s)
    ensures StableSort(s) == s
  {
    if s != [] {
      var init := s[..|s| - 1];
      assert Sorted(init);
      SortSortedIdentity(init);
      InsertLast(init, s[|s| - 1]);
    }
  }

  /** The records after the renumbering loop: the i-th (from zero) gets `txn_id` i + 1. */
  predicate Renumbered(before: seq<Record>, after: seq<Record>) {
    |after| == |before| &&
    forall i :: 0 <= i < |before| ==> after[i] == before[i]["txn_id" := VInt(i + 1)]
  }

  /** The renumbered ledger. */
  function Numbered(ts: seq<Record>): (out: seq<Record>)
    ensures Renumbered(ts, out)
  {
    seq(|ts|, i requires 0 <= i < |ts| => ts[i]["txn_id" := VInt(i + 1)])
  }

  /** Renumbering determines its result. */
  lemma RenumberedUnique(ts: seq<Record>, out: seq<Record>)
    requires Renumbered(ts, out)
    ensures out == Numbered(ts)
  {
  }

  /** `for i, txn in enumerate(transactions, start=1): txn["txn_id"] = i` */
  method Renumber(ts: seq<Record>) returns (out: seq<Record>)
    ensures out == Numbered(ts)
  {
    out := [];
    var i := 0;
    while i < |ts|
      invariant 0 <= i <= |ts|
      invariant Renumbered(ts[..i], out)
    {
      out := out + [ts[i]["txn_id" := VInt(i + 1)]];
      i := i + 1;
    }
    assert ts[..|ts|] == ts;
    RenumberedUnique(ts, out);
  }

  /** After renumbering, the ids are 1..N in the final order, so they are distinct. */
  lemma RenumberedDense(before: seq<Record>, after: seq<Record>)
    requires Renumbered(before, after)
    ensures forall i :: 0 <= i < |after| ==> "txn_id" in after[i] && after[i]["txn_id"] == VInt(i + 1)
    ensures forall i, j :: 0 <= i < j < |after| ==> after[i]["txn_id"] != after[j]["txn_id"]
    ensures forall i :: 0 <= i < |after| ==> after[i] - {"txn_id"} == before[i] - {"txn_id"}
  {
  }

  /** Renumbering leaves a record's key unchanged when the record carries `_parse_seq`. */
  lemma RenumberKeepsKey(txn: Record, n: int)
    requires Get(txn, ParseSeqKey, VNone).VInt?
    ensures Key(txn["txn_id" := VInt(n)]) == Key(txn)
  {
  }
}
