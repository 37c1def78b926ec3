/**
 * The transaction fingerprint: a SHA-256 digest of five financial fields
 * joined with '|', cut to its first 32 hexadecimal digits. The digest
 * itself is not modelled; it is any function that yields 64 lower-case
 * hexadecimal digits, passed in by the caller.
 */
module Fingerprint {
  import opened Records

  predicate IsLowerHex(s: string) {
    forall i :: 0 <= i < |s| ==> ('0' <= s[i] <= '9' || 'a' <= s[i] <= 'f')
  }

  const ZeroDigest: string := seq(64, i => '0')

  /** `hashlib.sha256(raw.encode()).hexdigest()`, uninterpreted */
  type HexDigest = f: string -> string | forall s :: |f(s)| == 64 && IsLowerHex(f(s))
    witness (s: string) => ZeroDigest

  /** A record carries the five fingerprinted fields as strings (otherwise the join raises). */
  predicate Hashable(t: Record) {
    && "post_date" in t && t["post_date"].VStr?
    && "value_date" in t && t["value_date"].VStr?
    && "debit" in t && t["debit"].VStr?
    && "credit" in t && t["credit"].VStr?
    && "balance" in t && t["balance"].VStr?
  }

  /** `"|".join([post_date, value_date, debit, credit, balance])` */
  function HashInput(t: Record): string
    requires Hashable(t)
  {
    t["post_date"].s + "|" + t["value_date"].s + "|" + t["debit"].s + "|" + t["credit"].s + "|" + t["balance"].s
  }

  /** `compute_hash`: 32 lower-case hexadecimal digits. */
  function ComputeHash(digest: HexDigest, t: Record): (h: string)
    requires Hashable(t)
    ensures |h| == 32 && IsLowerHex(h)
  {
    digest(HashInput(t))[..32]
  }

  /** Two records that agree on the five financial fields get the same fingerprint, whatever else differs. */
  lemma SameFinancialFieldsSameHash(digest: HexDigest, t1: Record, t2: Record)
    requires Hashable(t1) && Hashable(t2)
    requires t1["post_date"] == t2["post_date"] && t1["value_date"] == t2["value_date"]
    requires t1["debit"] == t2["debit"] && t1["credit"] == t2["credit"] && t1["balance"] == t2["balance"]
    ensures ComputeHash(digest, t1) == ComputeHash(digest, t2)
  {
  }

  lemma SplitFirstBar(x: string, y: string, x': string, y': string)
    requires '|' !in x && '|' !in x'
    requires x + "|" + y == x' + "|" + y'
    ensures x == x' && y == y'
  {
    var s := x + "|" + y;
    assert s[|x|] == '|' && (x' + "|" + y')[|x'|] == '|';
    assert x == s[..|x|] && x' == s[..|x'|];
    assert y == s[|x| + 1..] && y' == s[|x'| + 1..];
  }

  lemma SplitLastBar(x: string, y: string, x': string, y': string)
    requires '|' !in y && '|' !in y'
    requires x + "|" + y == x' + "|" + y'
    ensures x == x' && y == y'
  {
    var s := x + "|" + y;
    var n := |s|;
    assert s[n - 1 - |y|] == '|' && (x' + "|" + y')[n - 1 - |y'|] == '|';
    assert y == s[n - |y|..] && y' == s[n - |y'|..];
    assert x == s[..n - 1 - |y|] && x' == s[..n - 1 - |y'|];
  }

  /**
   * The fingerprint input determines the five fields when the date and the
   * three amounts hold no '|' (the value date may hold anything): changing any
   * one of them changes what is hashed.
   */
  lemma HashInputInjective(t1: Record, t2: Record)
    requires Hashable(t1) && Hashable(t2)
    requires '|' !in t1["post_date"].s && '|' !in t2["post_date"].s
    requires '|' !in t1["debit"].s && '|' !in t2["debit"].s
    requires '|' !in t1["credit"].s && '|' !in t2["credit"].s
    requires '|' !in t1["balance"].s && '|' !in t2["balance"].s
    requires HashInput(t1) == HashInput(t2)
    ensures t1["post_date"] == t2["post_date"] && t1["value_date"] == t2["value_date"]
    ensures t1["debit"] == t2["debit"] && t1["credit"] == t2["credit"] && t1["balance"] == t2["balance"]
  {
    var a1, b1, c1, d1, e1 := t1["post_date"].s, t1["value_date"].s, t1["debit"].s, t1["credit"].s, t1["balance"].s;
    var a2, b2, c2, d2, e2 := t2["post_date"].s, t2["value_date"].s, t2["debit"].s, t2["credit"].s, t2["balance"].s;
    assert HashInput(t1) == (a1 + "|" + b1 + "|" + c1 + "|" + d1) + "|" + e1;
    assert HashInput(t2) == (a2 + "|" + b2 + "|" + c2 + "|" + d2) + "|" + e2;
    SplitLastBar(a1 + "|" + b1 + "|" + c1 + "|" + d1, e1, a2 + "|" + b2 + "|" + c2 + "|" + d2, e2);
    SplitLastBar(a1 + "|" + b1 + "|" + c1, d1, a2 + "|" + b2 + "|" + c2, d2);
    SplitLastBar(a1 + "|" + b1, c1, a2 + "|" + b2, c2);
    SplitFirstBar(a1, b1, a2, b2);
  }
}
