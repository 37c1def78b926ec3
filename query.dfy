/**
 * The filter and paging logic of the `GET /transactions` endpoint: a date
 * range on `post_date`, a case-insensitive `txn_type` match, then `offset`
 * and `limit`, over the rows of the master ledger.
 */
module TransactionQuery {
  import opened Wrappers
  import opened Text
  import opened Records
  import opened Fields
  import opened Ordering
  import opened LedgerStore
  import opened ApiViews

  // ---------------------------------------------------------------------
  // Subsequences, filters and slices
  // ---------------------------------------------------------------------

  /** `xs` is `ys` with some elements left out, the rest in their order. */
  predicate Subseq<T(==)>(xs: seq<T>, ys: seq<T>)
    decreases |ys|
  {
    if xs == [] then true
    else if ys == [] then false
    else (xs[0] == ys[0] && Subseq(xs[1..], ys[1..])) || Subseq(xs, ys[1..])
  }

  lemma {:induction false} SubseqRefl<T>(xs: seq<T>)
    ensures Subseq(xs, xs)
  {
    if xs != [] {
      SubseqRefl(xs[1..]);
    }
  }

  lemma {:induction false} SubseqTrans<T>(xs: seq<T>, ys: seq<T>, zs: seq<T>)
    requires Subseq(xs, ys) && Subseq(ys, zs)
    ensures Subseq(xs, zs)
    decreases |zs|
  {
    if xs != [] {
      if ys[0] == zs[0] && Subseq(ys[1..], zs[1..]) {
        if xs[0] == ys[0] && Subseq(xs[1..], ys[1..]) {
          SubseqTrans(xs[1..], ys[1..], zs[1..]);
        } else {
          SubseqTrans(xs, ys[1..], zs[1..]);
        }
      } else {
        SubseqTrans(xs, ys, zs[1..]);
      }
    }
  }

  /** A list comprehension `[r for r in rows if p(r)]`. */
  function Filter(rows: seq<Record>, p: Record -> bool): (r: seq<Record>)
    ensures forall x :: x in r <==> x in rows && p(x)
  {
    if rows == [] then []
    else (if p(rows[0]) then [rows[0]] else []) + Filter(rows[1..], p)
  }

  /** A filter keeps its rows in their order. */
  lemma {:induction false} FilterSubseq(rows: seq<Record>, p: Record -> bool)
    ensures Subseq(Filter(rows, p), rows)
  {
    if rows != [] {
      FilterSubseq(rows[1..], p);
      var r := Filter(rows, p);
      if p(rows[0]) {
        assert r == [rows[0]] + Filter(rows[1..], p);
        assert r[0] == rows[0] && r[1..] == Filter(rows[1..], p);
      } else {
        assert r == Filter(rows[1..], p);
      }
    }
  }

  /** `s[n:]` */
  function Drop(s: seq<Record>, n: nat): seq<Record> {
    if n <= |s| then s[n..] else []
  }

  /** `s[:n]` */
  function Take(s: seq<Record>, n: nat): seq<Record> {
    if n <= |s| then s[..n] else s
  }

  lemma {:induction false} DropSubseq(s: seq<Record>, n: nat)
    ensures Subseq(Drop(s, n), s)
    decreases n
  {
    if n == 0 {
      SubseqRefl(s);
    } else if n <= |s| {
      DropSubseq(s[1..], n - 1);
      assert s[1..][n - 1..] == s[n..];
    }
  }

  lemma {:induction false} TakeSubseq(s: seq<Record>, n: nat)
    ensures Subseq(Take(s, n), s)
  {
    if n == 0 || s == [] {
      SubseqRefl(s);
    } else if n <= |s| {
      TakeSubseq(s[1..], n - 1);
      assert s[..n][1..] == s[1..][..n - 1];
    } else {
      SubseqRefl(s);
    }
  }

  // ---------------------------------------------------------------------
  // The filters
  // ---------------------------------------------------------------------

  /** `_safe_parse_date`: strptime with "%d/%m/%Y", None where it raises. */
  function SafeParseDate(v: Value): (d: Option<Date>)
    ensures d.Some? <==> v.VStr? && ParseDmy(v.s).Some?
    ensures d.Some? ==> d.value == ParseDmy(v.s).value
  {
    match v
    case VStr(s) => ParseDmy(s)
    case _ => None
  }

  /** The parsed post date of a row, None where it is missing or does not parse. */
  function PostDate(r: Record): Option<Date> {
    SafeParseDate(Get(r, "post_date", VNone))
  }

  predicate OnOrAfter(r: Record, from: Date) {
    PostDate(r).Some? && !DateLt(PostDate(r).value, from)
  }

  predicate OnOrBefore(r: Record, to: Date) {
    PostDate(r).Some? && !DateLt(to, PostDate(r).value)
  }

  /** `r.get("txn_type", "")`, when it is a string, so that `.lower()` applies. */
  predicate HasTypeText(r: Record) {
    Get(r, "txn_type", VStr("")).VStr?
  }

  predicate TypeMatches(r: Record, ty: string) {
    HasTypeText(r) && Lower(Get(r, "txn_type", VStr("")).s) == Lower(ty)
  }

  /** The filters a query applies: each bound is given or absent. */
  datatype Filters = Filters(from: Option<Date>, to: Option<Date>, txnType: Option<string>)

  /** A row the filters keep. */
  predicate Matches(r: Record, f: Filters) {
    && (f.from.Some? ==> OnOrAfter(r, f.from.value))
    && (f.to.Some? ==> OnOrBefore(r, f.to.value))
    && (f.txnType.Some? ==> TypeMatches(r, f.txnType.value))
  }

  function DateFiltered(rows: seq<Record>, f: Filters): seq<Record> {
    var a := match f.from case Some(d) => Filter(rows, r => OnOrAfter(r, d)) case None => rows;
    match f.to case Some(d) => Filter(a, r => OnOrBefore(r, d)) case None => a
  }

  /** A row's `txn_type` is None (a short CSV line): `.lower()` raises, and the endpoint answers 500. */
  datatype SelectError = NoTypeText

  /**
   * The three comprehensions of `get_transactions`, then `filtered[offset:]`
   * and, when a limit is given, `filtered[:limit]`.
   */
  function Select(rows: seq<Record>, f: Filters, limit: Option<nat>, offset: nat): Result<seq<Record>, SelectError> {
    var dated := DateFiltered(rows, f);
    if f.txnType.Some? && exists i :: 0 <= i < |dated| && !HasTypeText(dated[i]) then Failure(NoTypeText)
    else
      var typed := match f.txnType case Some(t) => Filter(dated, r => TypeMatches(r, t)) case None => dated;
      var page := Drop(typed, offset);
      Success(match limit case Some(n) => Take(page, n) case None => page)
  }

  /** The matching rows before paging. */
  function Matching(rows: seq<Record>, f: Filters): seq<Record> {
    var dated := DateFiltered(rows, f);
    match f.txnType case Some(t) => Filter(dated, r => TypeMatches(r, t)) case None => dated
  }

  lemma {:induction false} MatchingSubseq(rows: seq<Record>, f: Filters)
    ensures Subseq(Matching(rows, f), rows)
  {
    var a := match f.from case Some(d) => Filter(rows, r => OnOrAfter(r, d)) case None => rows;
    match f.from {
      case Some(d) => FilterSubseq(rows, r => OnOrAfter(r, d));
      case None => SubseqRefl(rows);
    }
    var b := DateFiltered(rows, f);
    match f.to {
      case Some(d) => FilterSubseq(a, r => OnOrBefore(r, d));
      case None => SubseqRefl(a);
    }
    SubseqTrans(b, a, rows);
    match f.txnType {
      case Some(t) => FilterSubseq(b, r => TypeMatches(r, t));
      case None => SubseqRefl(b);
    }
    SubseqTrans(Matching(rows, f), b, rows);
  }

  /** The matching rows are exactly the rows every given filter keeps. */
  lemma MatchingIff(rows: seq<Record>, f: Filters, x: Record)
    ensures x in Matching(rows, f) <==> x in rows && Matches(x, f)
  {
  }

  /** A row the date filters keep has a post date that parses and lies within the given bounds. */
  lemma MatchesDates(r: Record, f: Filters)
    requires Matches(r, f)
    ensures (f.from.Some? || f.to.Some?) ==> "post_date" in r && r["post_date"].VStr? && ParseDmy(r["post_date"].s).Some?
    ensures f.from.Some? ==> !DateLt(ParseDmy(r["post_date"].s).value, f.from.value)
    ensures f.to.Some? ==> !DateLt(f.to.value, ParseDmy(r["post_date"].s).value)
    ensures f.txnType.Some? ==> "txn_type" in r ==> r["txn_type"].VStr? && Lower(r["txn_type"].s) == Lower(f.txnType.value)
  {
  }

  /** The type filter fails exactly when a date-filtered row has no text `txn_type`. */
  lemma SelectFailsIff(rows: seq<Record>, f: Filters, limit: Option<nat>, offset: nat)
    ensures Select(rows, f, limit, offset).Failure? <==>
      f.txnType.Some? && exists x :: x in DateFiltered(rows, f) && !HasTypeText(x)
  {
    var dated := DateFiltered(rows, f);
    if exists x :: x in dated && !HasTypeText(x) {
      var x :| x in dated && !HasTypeText(x);
      var i :| 0 <= i < |dated| && dated[i] == x;
    }
  }

  /**
   * Paging: the result is the window of the matching rows that starts at
   * `offset` and holds at most `limit` rows, so the offset applies first.
   */
  lemma SelectPage(rows: seq<Record>, f: Filters, limit: Option<nat>, offset: nat)
    requires Select(rows, f, limit, offset).Success?
    ensures var r := Select(rows, f, limit, offset).value; var m := Matching(rows, f);
      && |r| == (var rest := if offset <= |m| then |m| - offset else 0;
                 match limit case Some(n) => Min(n, rest) case None => rest)
      && forall k :: 0 <= k < |r| ==> offset + k < |m| && r[k] == m[offset + k]
  {
  }

  /** The result is an order-preserving subsequence of the ledger rows, every row of it matches, and it holds at most `limit` rows. */
  lemma SelectSound(rows: seq<Record>, f: Filters, limit: Option<nat>, offset: nat)
    requires Select(rows, f, limit, offset).Success?
    ensures var r := Select(rows, f, limit, offset).value;
      && Subseq(r, rows)
      && (forall x :: x in r ==> x in rows && Matches(x, f))
      && (limit.Some? ==> |r| <= limit.value)
  {
    var m := Matching(rows, f);
    var page := Drop(m, offset);
    MatchingSubseq(rows, f);
    DropSubseq(m, offset);
    SubseqTrans(page, m, rows);
    var r := Select(rows, f, limit, offset).value;
    if limit.Some? {
      TakeSubseq(page, limit.value);
      SubseqTrans(r, page, rows);
    }
    SelectPage(rows, f, limit, offset);
    forall x | x in r ensures x in rows && Matches(x, f) {
      var k :| 0 <= k < |r| && r[k] == x;
      MatchingIff(rows, f, x);
    }
  }

  /** Without offset and limit, every matching row of the ledger is returned. */
  lemma SelectComplete(rows: seq<Record>, f: Filters, x: Record)
    requires Select(rows, f, None, 0).Success?
    ensures x in Select(rows, f, None, 0).value <==> x in rows && Matches(x, f)
  {
    MatchingIff(rows, f, x);
  }

  // ---------------------------------------------------------------------
  // The endpoint
  // ---------------------------------------------------------------------

  /** The answers other than a list: 400 for a bad date, 500 for a broken ledger or row. */
  datatype QueryError = BadFromDate | BadToDate | BrokenLedger(e: LoadError) | TypeNotText | NoHashText

  /** Python truthiness of an optional query string */
  predicate Given(q: Option<string>) {
    q.Some? && q.value != []
  }

  /** The date a given bound names; absent when the bound is not given. */
  function Bound(q: Option<string>): Option<Date> {
    if Given(q) then ParseDmy(q.value) else None
  }

  /**
   * `get_transactions` over the ledger file's content: the two date
   * bounds are checked before the file is looked at, a missing file gives
   * an empty list, and each selected row is returned through the view.
   */
  function GetTransactions(file: Option<CsvFile>, fromDate: Option<string>, toDate: Option<string>,
                           txnType: Option<string>, limit: Option<nat>, offset: nat): (r: Result<seq<Record>, QueryError>)
    requires limit.Some? ==> limit.value >= 1
    ensures Given(fromDate) && ParseDmy(fromDate.value).None? ==> r == Failure(BadFromDate)
    ensures !(Given(fromDate) && ParseDmy(fromDate.value).None?) && Given(toDate) && ParseDmy(toDate.value).None? ==>
      r == Failure(BadToDate)
    ensures (Given(fromDate) ==> ParseDmy(fromDate.value).Some?) && (Given(toDate) ==> ParseDmy(toDate.value).Some?) ==>
      (file.None? ==> r == Success([])) && (LoadExisting(file).Failure? ==> r == Failure(BrokenLedger(LoadExisting(file).error)))
  {
    if Given(fromDate) && ParseDmy(fromDate.value).None? then Failure(BadFromDate)
    else if Given(toDate) && ParseDmy(toDate.value).None? then Failure(BadToDate)
    else if file.None? then Success([])
    else
      match LoadExisting(file)
      case Failure(e) => Failure(BrokenLedger(e))
      case Success(loaded) =>
        var f := Filters(Bound(fromDate), Bound(toDate), if Given(txnType) then txnType else None);
        match Select(loaded.rows, f, limit, offset)
        case Failure(_) => Failure(TypeNotText)
        case Success(rows) =>
          match Views(rows)
          case Some(vs) => Success(vs)
          case None => Failure(NoHashText)
  }

  /**
   * A successful answer is the view of an order-preserving subsequence of
   * the loaded rows, all matching the given filters, and no longer than
   * the limit.
   */
  lemma GetTransactionsSound(file: Option<CsvFile>, fromDate: Option<string>, toDate: Option<string>,
                             txnType: Option<string>, limit: Option<nat>, offset: nat)
    requires limit.Some? ==> limit.value >= 1
    requires file.Some? && GetTransactions(file, fromDate, toDate, txnType, limit, offset).Success?
    ensures var f := Filters(Bound(fromDate), Bound(toDate), if Given(txnType) then txnType else None);
      var rows := LoadExisting(file).value.rows;
      && Select(rows, f, limit, offset).Success?
      && var sel := Select(rows, f, limit, offset).value;
      && GetTransactions(file, fromDate, toDate, txnType, limit, offset) == Success(Views(sel).value)
      && Subseq(sel, rows)
      && (forall x :: x in sel ==> Matches(x, f))
      && (limit.Some? ==> |sel| <= limit.value)
  {
    var f := Filters(Bound(fromDate), Bound(toDate), if Given(txnType) then txnType else None);
    SelectSound(LoadExisting(file).value.rows, f, limit, offset);
  }
}
