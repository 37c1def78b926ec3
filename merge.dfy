/**
 * The dedup/merge loop that both the command line importer and the
 * parse-and-save endpoint run over a document's records: a record whose
 * fingerprint is already known counts as a duplicate; any other is stamped
 * with its hash, the import time, a placeholder id and a `_parse_seq`
 * shifted past the existing ledger, and its hash becomes known.
 */
module Merge {
  import opened Wrappers
  import opened Records
  import opened Fingerprint

  /** What the loop needs of a parsed record: the five fingerprinted strings and an integer `_parse_seq`. */
  predicate Mergeable(t: Record) {
    Hashable(t) && ParseSeqKey in t && t[ParseSeqKey].VInt?
  }

  predicate AllMergeable(txns: seq<Record>) {
    forall i :: 0 <= i < |txns| ==> Mergeable(txns[i])
  }

  /** The updates an accepted record receives. */
  function Stamp(t: Record, h: string, now: string, offset: int): Record
    requires Mergeable(t)
  {
    t["hash" := VStr(h)]["imported_at" := VStr(now)]["txn_id" := VInt(0)][ParseSeqKey := VInt(t[ParseSeqKey].i + offset)]
  }

  /** A stamped record gains the three keys, carries its hash and a shifted `_parse_seq`, and keeps every other field. */
  lemma StampFields(t: Record, h: string, now: string, offset: int)
    requires Mergeable(t)
    ensures var s := Stamp(t, h, now, offset);
      s.Keys == t.Keys + {"hash", "imported_at", "txn_id"} &&
      s["hash"] == VStr(h) && s["imported_at"] == VStr(now) && s["txn_id"] == VInt(0) &&
      s[ParseSeqKey] == VInt(t[ParseSeqKey].i + offset) &&
      forall k :: k in t && k !in {"hash", "imported_at", "txn_id", ParseSeqKey} ==> s[k] == t[k]
  {
  }

  /** The fingerprint the loop computes: `compute_hash` on the records it runs over. */
  function HashOf(digest: HexDigest): Record -> string {
    t => if Hashable(t) then ComputeHash(digest, t) else ""
  }

  /** The loop's state: the accepted records, the known hashes, the duplicate count. */
  datatype Outcome = Outcome(accepted: seq<Record>, known: set<string>, dupCount: nat)

  /** The fingerprint of each record, in order. */
  function Hashes(fp: Record -> string, txns: seq<Record>): (hs: seq<string>)
    ensures |hs| == |txns|
    ensures forall i :: 0 <= i < |txns| ==> hs[i] == fp(txns[i])
  {
    if txns == [] then [] else [fp(txns[0])] + Hashes(fp, txns[1..])
  }

  /**
   * The state after the loop has run over the first `n` records of `txns`,
   * whose fingerprints are `hs`, starting from the hash set `known`.
   */
  function Dedup(txns: seq<Record>, hs: seq<string>, known: set<string>, now: string, offset: int, n: nat): Outcome
    requires AllMergeable(txns) && |hs| == |txns| && n <= |txns|
  {
    if n == 0 then Outcome([], known, 0)
    else
      var prev := Dedup(txns, hs, known, now, offset, n - 1);
      if hs[n - 1] in prev.known then prev.(dupCount := prev.dupCount + 1)
      else Outcome(prev.accepted + [Stamp(txns[n - 1], hs[n - 1], now, offset)], prev.known + {hs[n - 1]}, prev.dupCount)
  }

  /** Every record is either accepted or counted as a duplicate. */
  lemma {:induction false} DedupCounts(txns: seq<Record>, hs: seq<string>, known: set<string>, now: string, offset: int, n: nat)
    requires AllMergeable(txns) && |hs| == |txns| && n <= |txns|
    ensures |Dedup(txns, hs, known, now, offset, n).accepted| + Dedup(txns, hs, known, now, offset, n).dupCount == n
  {
    if n > 0 {
      DedupCounts(txns, hs, known, now, offset, n - 1);
    }
  }

  /** No hash is lost: afterwards the known set is the initial one plus every record's hash. */
  lemma {:induction false} DedupKnown(txns: seq<Record>, hs: seq<string>, known: set<string>, now: string, offset: int, n: nat)
    requires AllMergeable(txns) && |hs| == |txns| && n <= |txns|
    ensures Dedup(txns, hs, known, now, offset, n).known == known + set h | h in hs[..n]
  {
    if n > 0 {
      DedupKnown(txns, hs, known, now, offset, n - 1);
      assert hs[..n] == hs[..n - 1] + [hs[n - 1]];
    }
  }

  /** A record is new when its hash is neither known beforehand nor that of an earlier record. */
  predicate IsFresh(hs: seq<string>, known: set<string>, i: nat)
    requires i < |hs|
  {
    hs[i] !in known && hs[i] !in hs[..i]
  }

  /** The indices of the new records below `n`, in increasing order. */
  function FreshIndices(hs: seq<string>, known: set<string>, n: nat): (idx: seq<nat>)
    requires n <= |hs|
    ensures forall k :: 0 <= k < |idx| ==> idx[k] < n
  {
    if n == 0 then []
    else FreshIndices(hs, known, n - 1) + (if IsFresh(hs, known, n - 1) then [n - 1] else [])
  }

  /** The records the loop accepts, by their position in the input. */
  lemma {:induction false} FreshIndicesIff(hs: seq<string>, known: set<string>, n: nat, i: nat)
    requires n <= |hs| && i < n
    ensures i in FreshIndices(hs, known, n) <==> IsFresh(hs, known, i)
  {
    if i < n - 1 {
      FreshIndicesIff(hs, known, n - 1, i);
    }
  }

  lemma {:induction false} FreshIndicesIncreasing(hs: seq<string>, known: set<string>, n: nat)
    requires n <= |hs|
    ensures forall a, b :: 0 <= a < b < |FreshIndices(hs, known, n)| ==>
      FreshIndices(hs, known, n)[a] < FreshIndices(hs, known, n)[b]
  {
    if n > 0 {
      FreshIndicesIncreasing(hs, known, n - 1);
    }
  }

  /** When every hash is already known, no record is fresh. */
  lemma {:induction false} NoFreshIndices(hs: seq<string>, known: set<string>, n: nat)
    requires n <= |hs| && forall i :: 0 <= i < n ==> hs[i] in known
    ensures FreshIndices(hs, known, n) == []
  {
    if n > 0 {
      NoFreshIndices(hs, known, n - 1);
    }
  }

  /** The accepted records, as the fresh positions of the input, each stamped with its own hash. */
  predicate AcceptsFresh(txns: seq<Record>, hs: seq<string>, known: set<string>, now: string, offset: int,
                         accepted: seq<Record>, n: nat)
    requires AllMergeable(txns) && |hs| == |txns| && n <= |txns|
  {
    var idx := FreshIndices(hs, known, n);
    |accepted| == |idx| &&
    forall k :: 0 <= k < |idx| ==> accepted[k] == Stamp(txns[idx[k]], hs[idx[k]], now, offset)
  }

  /** The loop run over the first `n` records accepts exactly the fresh ones among them, in input order. */
  lemma {:induction false} DedupAccepts(txns: seq<Record>, hs: seq<string>, known: set<string>, now: string, offset: int, n: nat)
    requires AllMergeable(txns) && |hs| == |txns| && n <= |txns|
    ensures AcceptsFresh(txns, hs, known, now, offset, Dedup(txns, hs, known, now, offset, n).accepted, n)
  {
    if n > 0 {
      DedupAccepts(txns, hs, known, now, offset, n - 1);
      DedupKnown(txns, hs, known, now, offset, n - 1);
    }
  }

  /** Stamped fresh records carry hashes new to `known` and to each other, and shifted sequence numbers. */
  lemma FreshStamped(txns: seq<Record>, hs: seq<string>, known: set<string>, now: string, offset: int, acc: seq<Record>, n: nat)
    requires AllMergeable(txns) && |hs| == |txns| && n <= |txns| && AcceptsFresh(txns, hs, known, now, offset, acc, n)
    ensures forall k :: 0 <= k < |acc| ==> "hash" in acc[k] && acc[k]["hash"].VStr? && acc[k]["hash"].s !in known
    ensures forall a, b :: 0 <= a < b < |acc| ==> acc[a]["hash"] != acc[b]["hash"]
    ensures var idx := FreshIndices(hs, known, n);
      forall k :: 0 <= k < |acc| ==> acc[k][ParseSeqKey] == VInt(txns[idx[k]][ParseSeqKey].i + offset)
  {
    var idx := FreshIndices(hs, known, n);
    FreshIndicesIncreasing(hs, known, n);
    forall k | 0 <= k < |idx| ensures IsFresh(hs, known, idx[k]) {
      FreshIndicesIff(hs, known, n, idx[k]);
    }
    forall a, b | 0 <= a < b < |acc| ensures acc[a]["hash"] != acc[b]["hash"] {
      assert hs[idx[a]] in hs[..idx[b]];
    }
  }

  /**
   * The accepted hashes are absent from the initial set and pairwise
   * distinct, and each accepted record's `_parse_seq` grew by exactly `offset`.
   */
  lemma AcceptedFresh(txns: seq<Record>, hs: seq<string>, known: set<string>, now: string, offset: int)
    requires AllMergeable(txns) && |hs| == |txns|
    ensures var acc := Dedup(txns, hs, known, now, offset, |txns|).accepted;
      (forall k :: 0 <= k < |acc| ==> "hash" in acc[k] && acc[k]["hash"].VStr? && acc[k]["hash"].s !in known) &&
      (forall a, b :: 0 <= a < b < |acc| ==> acc[a]["hash"] != acc[b]["hash"])
    ensures var acc := Dedup(txns, hs, known, now, offset, |txns|).accepted;
      var idx := FreshIndices(hs, known, |txns|);
      |acc| == |idx| &&
      forall k :: 0 <= k < |acc| ==> ParseSeqKey in acc[k] && acc[k][ParseSeqKey] == VInt(txns[idx[k]][ParseSeqKey].i + offset)
  {
    DedupAccepts(txns, hs, known, now, offset, |txns|);
    FreshStamped(txns, hs, known, now, offset, Dedup(txns, hs, known, now, offset, |txns|).accepted, |txns|);
  }

  /** Every hash the loop adds to the set is carried by an accepted record. */
  lemma {:induction false} DedupKnownAccepted(txns: seq<Record>, hs: seq<string>, known: set<string>, now: string, offset: int, n: nat, h: string)
    requires AllMergeable(txns) && |hs| == |txns| && n <= |txns|
    requires h in Dedup(txns, hs, known, now, offset, n).known
    ensures var acc := Dedup(txns, hs, known, now, offset, n).accepted;
      h in known || exists k :: 0 <= k < |acc| && Get(acc[k], "hash", VNone) == VStr(h)
  {
    if n > 0 {
      var prev := Dedup(txns, hs, known, now, offset, n - 1);
      var acc := Dedup(txns, hs, known, now, offset, n).accepted;
      if hs[n - 1] !in prev.known {
        if h == hs[n - 1] {
          assert acc[|acc| - 1] == Stamp(txns[n - 1], hs[n - 1], now, offset);
          assert Get(acc[|acc| - 1], "hash", VNone) == VStr(h);
        } else {
          DedupKnownAccepted(txns, hs, known, now, offset, n - 1, h);
          if h !in known {
            var k :| 0 <= k < |prev.accepted| && Get(prev.accepted[k], "hash", VNone) == VStr(h);
            assert acc[k] == prev.accepted[k];
          }
        }
      } else {
        DedupKnownAccepted(txns, hs, known, now, offset, n - 1, h);
      }
    }
  }

  /** The k-th accepted record carries the hash of the k-th fresh record. */
  lemma AcceptedHash(txns: seq<Record>, hs: seq<string>, known: set<string>, now: string, offset: int, n: nat, k: nat)
    requires AllMergeable(txns) && |hs| == |txns| && n <= |txns| && k < |Dedup(txns, hs, known, now, offset, n).accepted|
    ensures k < |FreshIndices(hs, known, n)| && FreshIndices(hs, known, n)[k] < n
    ensures Get(Dedup(txns, hs, known, now, offset, n).accepted[k], "hash", VNone) == VStr(hs[FreshIndices(hs, known, n)[k]])
  {
    DedupAccepts(txns, hs, known, now, offset, n);
    var idx := FreshIndices(hs, known, n);
    StampFields(txns[idx[k]], hs[idx[k]], now, offset);
  }

  /** Every accepted record's hash is in the set the loop ends with, which contains the initial set. */
  lemma AcceptedKnown(txns: seq<Record>, hs: seq<string>, known: set<string>, now: string, offset: int)
    requires AllMergeable(txns) && |hs| == |txns|
    ensures var out := Dedup(txns, hs, known, now, offset, |txns|);
      known <= out.known &&
      forall k :: 0 <= k < |out.accepted| ==> Get(out.accepted[k], "hash", VNone).VStr? && Get(out.accepted[k], "hash", VNone).s in out.known
  {
    var out := Dedup(txns, hs, known, now, offset, |txns|);
    DedupKnown(txns, hs, known, now, offset, |txns|);
    forall k | 0 <= k < |out.accepted|
      ensures Get(out.accepted[k], "hash", VNone).VStr? && Get(out.accepted[k], "hash", VNone).s in out.known
    {
      AcceptedHash(txns, hs, known, now, offset, |txns|, k);
      assert hs[..|txns|][FreshIndices(hs, known, |txns|)[k]] == hs[FreshIndices(hs, known, |txns|)[k]];
    }
  }

  /** A run over records whose every hash is already known accepts nothing and counts each as a duplicate. */
  lemma AllKnownAcceptsNothing(txns: seq<Record>, hs: seq<string>, known: set<string>, now: string, offset: int)
    requires AllMergeable(txns) && |hs| == |txns| && forall i :: 0 <= i < |hs| ==> hs[i] in known
    ensures var out := Dedup(txns, hs, known, now, offset, |txns|);
      out.accepted == [] && out.dupCount == |txns|
  {
    DedupCounts(txns, hs, known, now, offset, |txns|);
    DedupAccepts(txns, hs, known, now, offset, |txns|);
    NoFreshIndices(hs, known, |txns|);
  }

  /** Running the loop again over the same records, with the set it left behind, accepts nothing. */
  lemma RerunAcceptsNothing(txns: seq<Record>, hs: seq<string>, known: set<string>, now: string, offset: int)
    requires AllMergeable(txns) && |hs| == |txns|
    ensures var again := Dedup(txns, hs, Dedup(txns, hs, known, now, offset, |txns|).known, now, offset, |txns|);
      again.accepted == [] && again.dupCount == |txns|
  {
    DedupKnown(txns, hs, known, now, offset, |txns|);
    assert hs[..|txns|] == hs;
    AllKnownAcceptsNothing(txns, hs, Dedup(txns, hs, known, now, offset, |txns|).known, now, offset);
  }

  /**
   * The loop over a document's records, with `fp` the fingerprint
   * (`HashOf(digest)` in the importer). `known` is the ledger's hash set,
   * `now` the import timestamp and `offset` the ledger's length.
   */
  method Deduplicate(fp: Record -> string, txns: seq<Record>, known: set<string>, now: string, offset: int)
    returns (newTxns: seq<Record>, knownAfter: set<string>, newCount: nat, dupCount: nat)
    requires AllMergeable(txns)
    ensures Dedup(txns, Hashes(fp, txns), known, now, offset, |txns|) == Outcome(newTxns, knownAfter, dupCount)
    ensures newCount == |newTxns| && newCount + dupCount == |txns|
  {
    ghost var hs := Hashes(fp, txns);
    newTxns, knownAfter, newCount, dupCount := [], known, 0, 0;
    for i := 0 to |txns|
      invariant Dedup(txns, hs, known, now, offset, i) == Outcome(newTxns, knownAfter, dupCount)
      invariant newCount == |newTxns|
    {
      var t := txns[i];
      var h := fp(t);
      if h in knownAfter {
        dupCount := dupCount + 1;
      } else {
        newTxns := newTxns + [Stamp(t, h, now, offset)];
        knownAfter := knownAfter + {h};
        newCount := newCount + 1;
      }
    }
    DedupCounts(txns, hs, known, now, offset, |txns|);
  }
}
