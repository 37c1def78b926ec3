/**
 * The Python string operations the importer relies on: `str.strip`,
 * `str.lower`, `in`, `endswith`, `split`, `replace`, `re.sub(r"\s+", " ", …)`,
 * `int(…)` and `str(int)`.
 */
module Text {
  import opened Wrappers

  /** Python's `str.isspace()`; `str.strip()` and the regex class `\s` use the same set. */
  predicate IsSpace(c: char) {
    var n := c as int;
    (9 <= n <= 13) || n == 0x20 || (0x1c <= n <= 0x1f) || n == 0x85 || n == 0xa0
    || n == 0x1680 || (0x2000 <= n <= 0x200a) || n == 0x2028 || n == 0x2029
    || n == 0x202f || n == 0x205f || n == 0x3000
  }

  predicate IsDigit(c: char) { '0' <= c <= '9' }

  /** A character of the regex class `\w`, restricted to ASCII. */
  predicate IsWordChar(c: char) {
    IsDigit(c) || ('a' <= c <= 'z') || ('A' <= c <= 'Z') || c == '_'
  }

  predicate AllDigits(s: string) {
    forall i :: 0 <= i < |s| ==> IsDigit(s[i])
  }

  predicate NoSpace(s: string) {
    forall i :: 0 <= i < |s| ==> !IsSpace(s[i])
  }

  function LowerChar(c: char): char {
    if 'A' <= c <= 'Z' then (c as int + 32) as char else c
  }

  /** `str.lower()` on ASCII letters */
  function Lower(s: string): (r: string)
    ensures |r| == |s|
    ensures forall i :: 0 <= i < |s| ==> r[i] == LowerChar(s[i])
  {
    seq(|s|, i requires 0 <= i < |s| => LowerChar(s[i]))
  }

  /** `str.lstrip()` */
  function StripLeft(s: string): (r: string)
    ensures |r| <= |s| && r == s[|s| - |r|..]
    ensures forall i :: 0 <= i < |s| - |r| ==> IsSpace(s[i])
    ensures r == [] || !IsSpace(r[0])
  {
    if s != [] && IsSpace(s[0]) then StripLeft(s[1..]) else s
  }

  /** `str.rstrip()` */
  function StripRight(s: string): (r: string)
    ensures |r| <= |s| && r == s[..|r|]
    ensures forall i :: |r| <= i < |s| ==> IsSpace(s[i])
    ensures r == [] || !IsSpace(r[|r| - 1])
  {
    if s != [] && IsSpace(s[|s| - 1]) then StripRight(s[..|s| - 1]) else s
  }

  /** `str.strip()` */
  function Strip(s: string): (r: string)
    ensures r == [] || (!IsSpace(r[0]) && !IsSpace(r[|r| - 1]))
  {
    StripRight(StripLeft(s))
  }

  /** What `lstrip` cuts away is whitespace only. */
  lemma StripLeftPart(s: string) returns (pre: string)
    ensures s == pre + StripLeft(s)
    ensures forall k :: 0 <= k < |pre| ==> IsSpace(pre[k])
  {
    var l := StripLeft(s);
    pre := s[..|s| - |l|];
    assert s == pre + s[|s| - |l|..];
    forall k | 0 <= k < |pre| ensures IsSpace(pre[k]) {
      assert pre[k] == s[k];
    }
  }

  /** What `rstrip` cuts away is whitespace only. */
  lemma StripRightPart(s: string) returns (post: string)
    ensures s == StripRight(s) + post
    ensures forall k :: 0 <= k < |post| ==> IsSpace(post[k])
  {
    var r := StripRight(s);
    post := s[|r|..];
    assert s == s[..|r|] + post;
    forall k | 0 <= k < |post| ensures IsSpace(post[k]) {
      assert post[k] == s[|r| + k];
    }
  }

  /** What Strip cuts away on either side is whitespace only. */
  lemma StripParts(s: string) returns (pre: string, post: string)
    ensures s == pre + Strip(s) + post
    ensures forall k :: 0 <= k < |pre| ==> IsSpace(pre[k])
    ensures forall k :: 0 <= k < |post| ==> IsSpace(post[k])
  {
    pre := StripLeftPart(s);
    var l := StripLeft(s);
    post := StripRightPart(l);
    assert l == Strip(s) + post;
    AppendAssoc(pre, Strip(s), post);
  }

  lemma AppendAssoc(a: string, b: string, c: string)
    ensures a + (b + c) == a + b + c
  {
  }

  /** Stripping a string that has no whitespace at either end changes nothing. */
  lemma StripUnpadded(s: string)
    requires s == [] || (!IsSpace(s[0]) && !IsSpace(s[|s| - 1]))
    ensures StripLeft(s) == s && Strip(s) == s
  {
  }

  /** A character missing from both sides of position `k` and from position `k` itself is missing from `s`. */
  lemma NotAround(s: string, k: nat, c: char)
    requires k < |s| && c !in s[..k] && s[k] != c && c !in s[k + 1..]
    ensures c !in s
  {
    assert s == s[..k] + [s[k]] + s[k + 1..];
  }

  function Min(a: nat, b: nat): nat {
    if a <= b then a else b
  }

  /** `pat in s` */
  predicate Contains(s: string, pat: string) {
    StartsWith(s, pat) || (s != [] && Contains(s[1..], pat))
  }

  predicate StartsWith(s: string, pre: string) {
    |pre| <= |s| && s[..|pre|] == pre
  }

  predicate EndsWith(s: string, suf: string) {
    |suf| <= |s| && s[|s| - |suf|..] == suf
  }

  /** The position of the first `c` in `s`, or `|s|` */
  function IndexOf(s: string, c: char): (r: nat)
    ensures r <= |s|
    ensures r < |s| ==> s[r] == c
    ensures forall i :: 0 <= i < r ==> s[i] != c
  {
    if s == [] then 0 else if s[0] == c then 0 else 1 + IndexOf(s[1..], c)
  }

  /** `s.split(sep)` for a one-character separator */
  function Split(s: string, sep: char): (r: seq<string>)
    ensures |r| >= 1
    ensures forall i :: 0 <= i < |r| ==> sep !in r[i]
    decreases |s|
  {
    var k := IndexOf(s, sep);
    if k == |s| then [s] else [s[..k]] + Split(s[k + 1..], sep)
  }

  /** `sep.join(parts)` */
  function Join(parts: seq<string>, sep: string): string {
    if |parts| == 0 then []
    else if |parts| == 1 then parts[0]
    else parts[0] + sep + Join(parts[1..], sep)
  }

  /** Splitting on a character and joining with it again gives back the string. */
  lemma {:induction false} JoinSplit(s: string, sep: char)
    ensures Join(Split(s, sep), [sep]) == s
    decreases |s|
  {
    var k := IndexOf(s, sep);
    if k < |s| {
      JoinSplit(s[k + 1..], sep);
      assert s == s[..k] + [sep] + s[k + 1..];
    }
  }

  /** `s.replace(c, rep)` for a one-character pattern */
  function Replace(s: string, c: char, rep: string): (r: string)
    ensures c !in rep ==> c !in r
  {
    if s == [] then []
    else (if s[0] == c then rep else [s[0]]) + Replace(s[1..], c, rep)
  }

  /** `re.sub(r"\s+", " ", s)`: every maximal run of whitespace becomes one blank. */
  function Collapse(s: string): (r: string)
    ensures forall i :: 0 <= i < |r| && IsSpace(r[i]) ==> r[i] == ' '
    ensures forall i :: 0 <= i < |r| - 1 ==> !(IsSpace(r[i]) && IsSpace(r[i + 1]))
    ensures r == [] <==> s == []
    ensures s != [] ==> (IsSpace(r[0]) <==> IsSpace(s[0]))
    decreases |s|
  {
    if s == [] then []
    else if IsSpace(s[0]) then [' '] + Collapse(StripLeft(s))
    else [s[0]] + Collapse(s[1..])
  }

  /** The characters of `s` that are not whitespace, in order. */
  function NonSpace(s: string): string {
    if s == [] then [] else (if IsSpace(s[0]) then [] else [s[0]]) + NonSpace(s[1..])
  }

  lemma {:induction false} NonSpaceAppend(a: string, b: string)
    ensures NonSpace(a + b) == NonSpace(a) + NonSpace(b)
  {
    if a == [] {
      assert a + b == b;
    } else {
      var head := if IsSpace(a[0]) then [] else [a[0]];
      assert (a + b)[0] == a[0] && (a + b)[1..] == a[1..] + b;
      NonSpaceAppend(a[1..], b);
      assert NonSpace(a + b) == head + NonSpace(a[1..] + b);
      assert NonSpace(a) == head + NonSpace(a[1..]);
    }
  }

  lemma {:induction false} NonSpaceAllSpace(s: string)
    requires forall i :: 0 <= i < |s| ==> IsSpace(s[i])
    ensures NonSpace(s) == []
  {
    if s != [] {
      NonSpaceAllSpace(s[1..]);
    }
  }

  /** Stripping removes whitespace only. */
  lemma NonSpaceStrip(s: string)
    ensures NonSpace(Strip(s)) == NonSpace(s)
  {
    var pre, post := StripParts(s);
    NonSpaceAppend(pre + Strip(s), post);
    NonSpaceAppend(pre, Strip(s));
    NonSpaceAllSpace(pre);
    NonSpaceAllSpace(post);
  }

  /** Collapsing whitespace runs removes whitespace only. */
  lemma {:induction false} NonSpaceCollapse(s: string)
    ensures NonSpace(Collapse(s)) == NonSpace(s)
    decreases |s|
  {
    if s == [] {
    } else if IsSpace(s[0]) {
      var t := StripLeft(s);
      NonSpaceCollapse(t);
      NonSpaceAppend([' '], Collapse(t));
      assert s == s[..|s| - |t|] + t;
      NonSpaceAppend(s[..|s| - |t|], t);
      NonSpaceAllSpace(s[..|s| - |t|]);
    } else {
      NonSpaceCollapse(s[1..]);
      NonSpaceAppend([s[0]], Collapse(s[1..]));
    }
  }

  /** A string whose only whitespace is single blanks is left alone by Collapse. */
  lemma {:induction false} CollapseFixed(s: string)
    requires forall i :: 0 <= i < |s| && IsSpace(s[i]) ==> s[i] == ' '
    requires forall i :: 0 <= i < |s| - 1 ==> !(IsSpace(s[i]) && IsSpace(s[i + 1]))
    ensures Collapse(s) == s
    decreases |s|
  {
    if s != [] {
      if IsSpace(s[0]) {
        assert StripLeft(s) == s[1..] by {
          assert s[1..] == [] || !IsSpace(s[1]);
        }
      }
      CollapseFixed(s[1..]);
    }
  }

  /** The numeric value of a string of decimal digits */
  function DigitsValue(s: string): nat
    requires AllDigits(s)
  {
    if s == [] then 0 else DigitsValue(s[..|s| - 1]) * 10 + (s[|s| - 1] as int - '0' as int)
  }

  /** `int(s)`: surrounding whitespace, an optional sign, then decimal digits (underscores between digits are not accepted here). */
  function ParseInt(s: string): Option<int> {
    var t := Strip(s);
    var body := if |t| > 0 && (t[0] == '+' || t[0] == '-') then t[1..] else t;
    if body != [] && AllDigits(body) then
      Some(if |t| > 0 && t[0] == '-' then -(DigitsValue(body) as int) else DigitsValue(body))
    else None
  }

  function DigitChar(d: nat): (c: char)
    requires d < 10
    ensures IsDigit(c) && c as int - '0' as int == d
  {
    ('0' as int + d) as char
  }

  /** `str(n)` for a natural number */
  function NatToString(n: nat): (r: string)
    ensures r != [] && AllDigits(r)
    ensures DigitsValue(r) == n
  {
    if n < 10 then [DigitChar(n)]
    else
      var r := NatToString(n / 10) + [DigitChar(n % 10)];
      assert r[..|r| - 1] == NatToString(n / 10);
      r
  }

  /** `str(n)` */
  function IntToString(n: int): (r: string)
    ensures r != [] && NoSpace(r)
  {
    if n < 0 then "-" + NatToString(-n) else NatToString(n)
  }

  /** `int(str(n)) == n` */
  lemma IntRoundTrip(n: int)
    ensures ParseInt(IntToString(n)) == Some(n)
  {
    var s := IntToString(n);
    StripUnpadded(s);
    if n < 0 {
      assert s[1..] == NatToString(-n);
    }
  }
}
