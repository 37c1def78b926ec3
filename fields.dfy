/**
 * Field normaliser and row classifier of the statement parser: amounts,
 * dates, reference numbers, descriptions, and the transaction / summary
 * row tests. A table cell is `Option<string>` because the PDF table
 * extractor yields `None` for an empty cell.
 */
module Fields {
  import opened Wrappers
  import opened Text

  type Cell = Option<string>
  type Row = seq<Cell>

  const ColTxnDate: nat := 0
  const ColValueDate: nat := 1
  const ColDescription: nat := 2
  const ColChequeNo: nat := 3
  const ColDebit: nat := 4
  const ColCredit: nat := 5
  const ColBalance: nat := 6
  const MinCols: nat := 7

  /** `cell or ""` */
  function CellText(c: Cell): string {
    c.GetOr("")
  }

  // ---------------------------------------------------------------------
  // Amounts
  // ---------------------------------------------------------------------

  /** Digits with at most one decimal point, and at least one digit. */
  predicate IsMantissa(m: string) {
    var k := IndexOf(m, '.');
    var frac := if k < |m| then m[k + 1..] else [];
    AllDigits(m[..k]) && AllDigits(frac) && k + |frac| > 0
  }

  /** An optionally signed run of digits. */
  predicate IsExponent(e: string) {
    var d := if |e| > 0 && (e[0] == '+' || e[0] == '-') then e[1..] else e;
    d != [] && AllDigits(d)
  }

  predicate IsDecimalNumber(u: string) {
    var k := IndexOf(Lower(u), 'e');
    if k == |u| then IsMantissa(u) else IsMantissa(u[..k]) && IsExponent(u[k + 1..])
  }

  /** The text `float()` accepts once surrounding whitespace is stripped. */
  predicate IsFloatLiteral(t: string) {
    var u := if |t| > 0 && (t[0] == '+' || t[0] == '-') then t[1..] else t;
    IsDecimalNumber(u) || Lower(u) == "inf" || Lower(u) == "infinity" || Lower(u) == "nan"
  }

  /** `parse_amount`: "" stands for an absent amount. */
  function ParseAmount(value: Cell): (r: string)
    ensures value.None? || value.value == [] || Strip(value.value) == "-" ==> r == ""
    ensures r != [] ==> ',' !in r && r == Replace(Strip(value.value), ',', "")
    ensures r != [] ==> IsFloatLiteral(Strip(r))
    ensures value.Some? && Strip(value.value) != "-" && IsFloatLiteral(Strip(Replace(Strip(value.value), ',', ""))) ==>
      r == Replace(Strip(value.value), ',', "")
  {
    if value.None? || value.value == [] || Strip(value.value) == "-" then ""
    else
      var cleaned := Replace(Strip(value.value), ',', "");
      if IsFloatLiteral(Strip(cleaned)) then cleaned else ""
  }

  lemma SeparatorRemoved()
    ensures Replace("1,234.50", ',', "") == "1234.50"
  {
    assert Replace("50", ',', "") == "50";
    assert Replace(".50", ',', "") == ".50";
    assert Replace("234.50", ',', "") == "234.50";
  }

  lemma PlainDecimal()
    ensures IsFloatLiteral("1234.50")
  {
    var c := "1234.50";
    assert IndexOf(Lower(c), 'e') == |c|;
    assert IndexOf(c, '.') == 4;
  }

  /** Unpadded text that `float` accepts once its commas are gone is kept without them. */
  lemma AmountKept(v: string, c: string)
    requires Strip(v) == v && v != "-" && Replace(v, ',', "") == c && Strip(c) == c && IsFloatLiteral(c)
    ensures ParseAmount(Some(v)) == c
  {
  }

  /** "1,234.50" loses its thousands separator and is kept as "1234.50". */
  lemma AmountWithSeparator()
    ensures ParseAmount(Some("1,234.50")) == "1234.50"
  {
    StripUnpadded("1,234.50");
    SeparatorRemoved();
    StripUnpadded("1234.50");
    PlainDecimal();
    AmountKept("1,234.50", "1234.50");
  }

  /** A cell holding only "-" is an absent amount. */
  lemma AmountDash()
    ensures ParseAmount(Some("-")) == ""
  {
    StripUnpadded("-");
  }

  lemma NotDecimal()
    ensures !IsFloatLiteral("Dr")
  {
    var v := "Dr";
    assert Lower(v) == "dr";
    assert IndexOf(Lower(v), 'e') == |v|;
    assert IndexOf(v, '.') == 2;
  }

  /** Text that `float` rejects, such as "Dr", is an absent amount. */
  lemma AmountNotNumber()
    ensures ParseAmount(Some("Dr")) == ""
  {
    StripUnpadded("Dr");
    assert Replace("Dr", ',', "") == "Dr";
    NotDecimal();
  }

  /** A run of digits holds no other character. */
  lemma DigitsHaveNo(s: string, c: char)
    requires AllDigits(s) && !IsDigit(c)
    ensures c !in s
  {
  }

  lemma NoBarInMantissa(m: string)
    requires IsMantissa(m)
    ensures '|' !in m
  {
    var k := IndexOf(m, '.');
    DigitsHaveNo(m[..k], '|');
    if k < |m| {
      DigitsHaveNo(m[k + 1..], '|');
      NotAround(m, k, '|');
    } else {
      assert m == m[..k];
    }
  }

  lemma NoBarInExponent(e: string)
    requires IsExponent(e)
    ensures '|' !in e
  {
    if |e| > 0 && (e[0] == '+' || e[0] == '-') {
      DigitsHaveNo(e[1..], '|');
      assert e == [e[0]] + e[1..];
    } else {
      DigitsHaveNo(e, '|');
    }
  }

  lemma NoBarInDecimal(u: string)
    requires IsDecimalNumber(u)
    ensures '|' !in u
  {
    var k := IndexOf(Lower(u), 'e');
    if k == |u| {
      NoBarInMantissa(u);
    } else {
      NoBarInMantissa(u[..k]);
      NoBarInExponent(u[k + 1..]);
      assert Lower(u)[k] == LowerChar(u[k]);
      NotAround(u, k, '|');
    }
  }

  /** Lower-casing neither adds nor removes a '|'. */
  lemma NoBarBelowLower(u: string)
    requires '|' !in Lower(u)
    ensures '|' !in u
  {
    forall j | 0 <= j < |u| ensures u[j] != '|' {
      assert Lower(u)[j] == LowerChar(u[j]);
    }
  }

  lemma NoBarInSpecial(u: string)
    requires Lower(u) == "inf" || Lower(u) == "infinity" || Lower(u) == "nan"
    ensures '|' !in u
  {
    assert '|' !in Lower(u);
    NoBarBelowLower(u);
  }

  /** A number's text never holds the fingerprint delimiter. */
  lemma NoBarInFloat(t: string)
    requires IsFloatLiteral(t)
    ensures '|' !in t
  {
    var signed := |t| > 0 && (t[0] == '+' || t[0] == '-');
    var u := if signed then t[1..] else t;
    if IsDecimalNumber(u) {
      NoBarInDecimal(u);
    } else {
      NoBarInSpecial(u);
    }
    if signed {
      assert t[..0] == [];
      NotAround(t, 0, '|');
    }
  }

  /** Whitespace around a number adds no '|' either. */
  lemma NoBarInPaddedFloat(r: string)
    requires IsFloatLiteral(Strip(r))
    ensures '|' !in r
  {
    NoBarInFloat(Strip(r));
    var pre, post := StripParts(r);
    assert '|' !in pre && '|' !in post by {
      assert !IsSpace('|');
    }
  }

  /** A normalised amount never holds the fingerprint delimiter. */
  lemma NoBarInAmount(value: Cell)
    ensures '|' !in ParseAmount(value)
  {
    var r := ParseAmount(value);
    if r != [] {
      NoBarInPaddedFloat(r);
    }
  }

  // ---------------------------------------------------------------------
  // Dates
  // ---------------------------------------------------------------------

  datatype Date = Date(year: int, month: int, day: int)

  predicate IsLeap(y: int) {
    y % 4 == 0 && (y % 100 != 0 || y % 400 == 0)
  }

  function DaysInMonth(y: int, m: int): int {
    if m == 2 then (if IsLeap(y) then 29 else 28)
    else if m == 4 || m == 6 || m == 9 || m == 11 then 30
    else 31
  }

  /** `%d`: one or two digits from 1 to 31, or a blank then one digit from 1 to 9. */
  function DayField(p: string): Option<int> {
    if |p| == 2 && p[0] == ' ' && '1' <= p[1] <= '9' then Some(DigitsValue(p[1..]))
    else if 1 <= |p| <= 2 && AllDigits(p) && 1 <= DigitsValue(p) <= 31 then Some(DigitsValue(p))
    else None
  }

  /** `%m`: one or two digits from 1 to 12. */
  function MonthField(p: string): Option<int> {
    if 1 <= |p| <= 2 && AllDigits(p) && 1 <= DigitsValue(p) <= 12 then Some(DigitsValue(p)) else None
  }

  /** `%Y`: exactly four digits. */
  function YearField(p: string): Option<int> {
    if |p| == 4 && AllDigits(p) then Some(DigitsValue(p)) else None
  }

  /** `datetime.strptime(s, "%d/%m/%Y")`, None where it raises. */
  function ParseDmy(s: string): (r: Option<Date>)
    ensures r.Some? ==> 1 <= r.value.month <= 12 && 1 <= r.value.day <= DaysInMonth(r.value.year, r.value.month)
    ensures r.Some? ==> 1 <= r.value.year
  {
    var parts := Split(s, '/');
    if |parts| != 3 then None
    else
      match (DayField(parts[0]), MonthField(parts[1]), YearField(parts[2]))
      case (Some(d), Some(m), Some(y)) =>
        if 1 <= y && d <= DaysInMonth(y, m) then Some(Date(y, m, d)) else None
      case _ => None
  }

  /** A calendar date with a four-digit year, the dates a statement prints. */
  predicate ValidDate(d: Date) {
    1 <= d.year <= 9999 && 1 <= d.month <= 12 && 1 <= d.day <= DaysInMonth(d.year, d.month)
  }

  /** Two digits, zero-padded. */
  function Pad2(n: nat): (r: string)
    requires n < 100
    ensures |r| == 2 && AllDigits(r) && DigitsValue(r) == n
  {
    var hi := [DigitChar(n / 10)];
    var r := hi + [DigitChar(n % 10)];
    assert hi[..0] == [] && r[..1] == hi;
    assert DigitsValue(hi) == n / 10;
    r
  }

  /** Four digits, zero-padded. */
  function Pad4(n: nat): (r: string)
    requires n < 10000
    ensures |r| == 4 && AllDigits(r) && DigitsValue(r) == n
  {
    var hi := Pad2(n / 100);
    var lo := Pad2(n % 100);
    var r := hi + lo;
    assert r[..3] == hi + [lo[0]] && r[..2] == hi;
    assert lo[..1] == [lo[0]];
    r
  }

  /** The date as DD/MM/YYYY. */
  function FormatDmy(d: Date): string
    requires ValidDate(d)
  {
    Pad2(d.day) + "/" + Pad2(d.month) + "/" + Pad4(d.year)
  }

  lemma SplitAt(a: string, b: string)
    requires '/' !in a
    ensures Split(a + "/" + b, '/') == [a] + Split(b, '/')
  {
    var s := a + "/" + b;
    assert s[..|a|] == a;
    assert s[|a| + 1..] == b;
    assert IndexOf(s, '/') == |a| by {
      assert s[|a|] == '/';
      forall i | 0 <= i < |a| ensures s[i] != '/' {
        assert s[i] == a[i];
      }
    }
  }

  /** Every valid date written as DD/MM/YYYY reads back as itself. */
  lemma ParseFormatDmy(d: Date)
    requires ValidDate(d)
    ensures ParseDmy(FormatDmy(d)) == Some(d)
  {
    var dd, mm, yy := Pad2(d.day), Pad2(d.month), Pad4(d.year);
    DigitsHaveNo(dd, '/');
    DigitsHaveNo(mm, '/');
    DigitsHaveNo(yy, '/');
    assert FormatDmy(d) == dd + "/" + (mm + "/" + yy);
    SplitAt(dd, mm + "/" + yy);
    SplitAt(mm, yy);
    assert IndexOf(yy, '/') == |yy|;
    assert Split(FormatDmy(d), '/') == [dd, mm, yy];
    assert dd[0] != ' ';
  }

  /** `is_date` */
  predicate IsDate(text: Cell) {
    text.Some? && text.value != [] && ParseDmy(Strip(text.value)).Some?
  }

  lemma NoBarInDay(p: string)
    requires DayField(p).Some?
    ensures '|' !in p
  {
    if |p| == 2 && p[0] == ' ' && '1' <= p[1] <= '9' {
      assert p == [p[0]] + [p[1]];
    } else {
      DigitsHaveNo(p, '|');
    }
  }

  /** The three parts of a date, around its two slashes. */
  lemma DateParts(s: string)
    requires |Split(s, '/')| == 3
    ensures var parts := Split(s, '/');
      s == parts[0] + "/" + (parts[1] + "/" + parts[2])
  {
    var parts := Split(s, '/');
    JoinSplit(s, '/');
    assert parts[1..][1..] == [parts[2]];
    assert Join(parts[1..][1..], "/") == parts[2];
    assert Join(parts[1..], "/") == parts[1] + "/" + parts[2];
  }

  /** A text that parses as a date holds only digits, '/' and at most one blank. */
  lemma NoBarInDate(s: string)
    requires ParseDmy(s).Some?
    ensures '|' !in s
  {
    var parts := Split(s, '/');
    DateParts(s);
    NoBarInDay(parts[0]);
    DigitsHaveNo(parts[1], '|');
    DigitsHaveNo(parts[2], '|');
  }

  // ---------------------------------------------------------------------
  // Row classification
  // ---------------------------------------------------------------------

  /** `is_transaction_row`: at least seven cells and a date in the first. */
  predicate IsTransactionRow(row: Row) {
    |row| >= MinCols && IsDate(row[ColTxnDate])
  }

  /** `pat` occurs in `s` at position `i`. */
  predicate OccursAt(s: string, pat: string, i: int) {
    0 <= i <= |s| - |pat| && s[i..i + |pat|] == pat
  }

  /** The recursive substring test agrees with "occurs at some position". */
  lemma {:induction false} ContainsIff(s: string, pat: string)
    ensures Contains(s, pat) <==> exists i :: OccursAt(s, pat, i)
  {
    if StartsWith(s, pat) {
      assert OccursAt(s, pat, 0);
    } else if s != [] {
      ContainsIff(s[1..], pat);
      if Contains(s[1..], pat) {
        var i :| OccursAt(s[1..], pat, i);
        assert s[1..][i..i + |pat|] == s[i + 1..i + 1 + |pat|];
        assert OccursAt(s, pat, i + 1);
      }
      if i :| OccursAt(s, pat, i) {
        assert i != 0;
        assert s[1..][i - 1..i - 1 + |pat|] == s[i..i + |pat|];
        assert OccursAt(s[1..], pat, i - 1);
      }
    }
  }

  /** `is_summary_row`: the first cell names a running summary or a brought-forward balance. */
  predicate IsSummaryRow(row: Row) {
    row != [] && (Contains(CellText(row[0]), "Statement Summary") || Contains(CellText(row[0]), "Brought Forward"))
  }

  /** Summary rows are exactly the rows whose first cell holds one of the two markers. */
  lemma SummaryRowIff(row: Row)
    ensures IsSummaryRow(row) <==>
      (row != [] &&
       ((exists i :: OccursAt(CellText(row[0]), "Statement Summary", i)) ||
        (exists i :: OccursAt(CellText(row[0]), "Brought Forward", i))))
  {
    if row != [] {
      ContainsIff(CellText(row[0]), "Statement Summary");
      ContainsIff(CellText(row[0]), "Brought Forward");
    }
  }

  /** Rows that are empty or too short never classify as transactions. */
  lemma ShortRowIsNoTransaction(row: Row)
    requires |row| < MinCols
    ensures !IsTransactionRow(row) && (row == [] ==> !IsSummaryRow(row))
  {
  }

  // ---------------------------------------------------------------------
  // Description helpers
  // ---------------------------------------------------------------------

  /** The maximal run of digits `s` starts with. */
  function LeadingDigits(s: string): (r: string)
    ensures AllDigits(r) && StartsWith(s, r)
    ensures |r| == |s| || !IsDigit(s[|r|])
  {
    if s != [] && IsDigit(s[0]) then [s[0]] + LeadingDigits(s[1..]) else []
  }

  /** `re.match(r"^(\d{10,13})\b", line)`, its group 1 when it matches. */
  function RefToken(line: string): (r: Option<string>)
    ensures r.Some? ==> 10 <= |r.value| <= 13 && AllDigits(r.value)
  {
    var run := LeadingDigits(line);
    if 10 <= |run| <= 13 && (|run| == |line| || !IsWordChar(line[|run|])) then Some(run) else None
  }

  /** The regex read literally: `n` digits, 10 to 13 of them, then a word boundary. */
  predicate RefMatch(line: string, n: int) {
    10 <= n <= 13 && n <= |line| && AllDigits(line[..n]) && (n == |line| || !IsWordChar(line[n]))
  }

  /** The greedy leading-run reading matches exactly when some length satisfies the regex. */
  lemma RefTokenIff(line: string, t: string)
    ensures RefToken(line) == Some(t) <==> exists n :: RefMatch(line, n) && t == line[..n]
  {
    var run := LeadingDigits(line);
    assert run == line[..|run|];
    if RefToken(line) == Some(t) {
      assert RefMatch(line, |run|);
    }
  }

  /** A line that starts with fourteen or more digits yields no reference number. */
  lemma LongDigitRunIsNoRef(line: string)
    requires |LeadingDigits(line)| >= 14
    ensures RefToken(line) == None
  {
  }

  /** The loop over lines with its early return */
  function FirstRef(lines: seq<string>): (r: string)
    ensures r == [] || (10 <= |r| <= 13 && AllDigits(r))
  {
    if lines == [] then ""
    else match RefToken(Strip(lines[0]))
      case Some(t) => t
      case None => FirstRef(lines[1..])
  }

  /** `extract_ref_number` */
  function ExtractRefNumber(desc: string): (r: string)
    ensures r == [] || (10 <= |r| <= 13 && AllDigits(r))
  {
    if desc == [] then "" else FirstRef(Split(desc, '\n'))
  }

  /** The reference number comes from the first line whose stripped text matches, and only from it. */
  lemma {:induction false} FirstRefIsFirstMatch(lines: seq<string>) returns (i: nat)
    ensures i <= |lines|
    ensures forall j :: 0 <= j < i ==> RefToken(Strip(lines[j])).None?
    ensures i < |lines| ==> RefToken(Strip(lines[i])) == Some(FirstRef(lines))
    ensures i == |lines| ==> FirstRef(lines) == []
  {
    if lines == [] {
      i := 0;
    } else if RefToken(Strip(lines[0])).Some? {
      i := 0;
    } else {
      var k := FirstRefIsFirstMatch(lines[1..]);
      i := k + 1;
    }
  }

  /** `clean_description`: line breaks become " | ", whitespace runs one blank, ends trimmed. */
  function CleanDescription(desc: string): string {
    if desc == [] then [] else Strip(Collapse(Replace(desc, '\n', " | ")))
  }

  /** A slice of a collapsed string is still free of doubled and non-blank whitespace. */
  lemma SliceShape(c: string, pre: string, r: string, post: string)
    requires c == pre + r + post
    requires forall i :: 0 <= i < |c| && IsSpace(c[i]) ==> c[i] == ' '
    requires forall i :: 0 <= i < |c| - 1 ==> !(IsSpace(c[i]) && IsSpace(c[i + 1]))
    ensures forall i :: 0 <= i < |r| && IsSpace(r[i]) ==> r[i] == ' '
    ensures forall i :: 0 <= i < |r| - 1 ==> !(IsSpace(r[i]) && IsSpace(r[i + 1]))
  {
    forall i | 0 <= i < |r| ensures r[i] == c[|pre| + i] { }
  }

  /** Stripping a collapsed string leaves one line without doubled or surrounding whitespace. */
  lemma StrippedCollapsedShape(c: string)
    requires forall i :: 0 <= i < |c| && IsSpace(c[i]) ==> c[i] == ' '
    requires forall i :: 0 <= i < |c| - 1 ==> !(IsSpace(c[i]) && IsSpace(c[i + 1]))
    ensures var r := Strip(c);
      && '\n' !in r
      && (forall i :: 0 <= i < |r| - 1 ==> !(IsSpace(r[i]) && IsSpace(r[i + 1])))
      && (forall i :: 0 <= i < |r| && IsSpace(r[i]) ==> r[i] == ' ')
  {
    var pre, post := StripParts(c);
    var r := Strip(c);
    SliceShape(c, pre, r, post);
    forall i | 0 <= i < |r| ensures r[i] != '\n' {
      assert IsSpace(r[i]) ==> r[i] == ' ';
    }
  }

  /** The cleaned description is one line without doubled or surrounding whitespace. */
  lemma CleanDescriptionShape(desc: string)
    ensures var r := CleanDescription(desc);
      && '\n' !in r
      && (forall i :: 0 <= i < |r| - 1 ==> !(IsSpace(r[i]) && IsSpace(r[i + 1])))
      && (r == [] || (!IsSpace(r[0]) && !IsSpace(r[|r| - 1])))
      && (forall i :: 0 <= i < |r| && IsSpace(r[i]) ==> r[i] == ' ')
  {
    if desc != [] {
      StrippedCollapsedShape(Collapse(Replace(desc, '\n', " | ")));
    }
  }

  /** Cleaning an already cleaned description changes nothing. */
  lemma CleanDescriptionIdempotent(desc: string)
    ensures CleanDescription(CleanDescription(desc)) == CleanDescription(desc)
  {
    var r := CleanDescription(desc);
    CleanDescriptionShape(desc);
    if r != [] {
      assert Replace(r, '\n', " | ") == r by {
        ReplaceAbsent(r, '\n', " | ");
      }
      CollapseFixed(r);
      StripUnpadded(r);
    }
  }

  lemma {:induction false} ReplaceAbsent(s: string, c: char, rep: string)
    requires c !in s
    ensures Replace(s, c, rep) == s
  {
    if s != [] {
      ReplaceAbsent(s[1..], c, rep);
    }
  }

  /** Cleaning keeps every non-blank character, in order, with '|' where each line break was. */
  lemma CleanDescriptionKeepsText(desc: string)
    ensures NonSpace(CleanDescription(desc)) == NonSpace(Replace(desc, '\n', "|"))
  {
    if desc != [] {
      var x := Replace(desc, '\n', " | ");
      NonSpaceStrip(Collapse(x));
      NonSpaceCollapse(x);
      NonSpaceReplace(desc);
    }
  }

  lemma {:induction false} NonSpaceReplace(s: string)
    ensures NonSpace(Replace(s, '\n', " | ")) == NonSpace(Replace(s, '\n', "|"))
  {
    if s != [] {
      NonSpaceReplace(s[1..]);
      if s[0] == '\n' {
        NonSpaceAppend(" | ", Replace(s[1..], '\n', " | "));
        NonSpaceAppend("|", Replace(s[1..], '\n', "|"));
        assert NonSpace(" | ") == "|";
      } else {
        NonSpaceAppend([s[0]], Replace(s[1..], '\n', " | "));
        NonSpaceAppend([s[0]], Replace(s[1..], '\n', "|"));
      }
    }
  }
}
