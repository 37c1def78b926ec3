/**
 * What one import does to the master ledger, as functions of the ledger
 * file's content before the import: the merge loop's outcome and the file
 * written afterwards, with what the service promises about them.
 */
module Importing {
  import opened Wrappers
  import opened Text
  import opened Records
  import opened Fingerprint
  import opened Extractor
  import opened Ordering
  import opened Merge
  import opened LedgerStore
  import opened ApiViews

  /** The merge loop's outcome for a document's records against the ledger file's content. */
  function Imported(content: Option<CsvFile>, ts: seq<Record>, fp: Record -> string, now: string): Outcome
    requires LoadExisting(content).Success? && AllMergeable(ts)
  {
    var l := LoadExisting(content).value;
    Dedup(ts, Hashes(fp, ts), l.hashes, now, |l.rows|, |ts|)
  }

  /** The ledger file afterwards: unchanged when nothing was new, otherwise the sorted, renumbered merge. */
  function Saved(content: Option<CsvFile>, ts: seq<Record>, fp: Record -> string, now: string): Option<CsvFile>
    requires LoadExisting(content).Success? && AllMergeable(ts)
  {
    var accepted := Imported(content, ts, fp, now).accepted;
    if accepted == [] then content
    else Some(Render(Numbered(StableSort(LoadExisting(content).value.rows + accepted))))
  }

  /** When a record is new, the file written is the rendered, sorted and renumbered merge of the ledger and the new records. */
  lemma SavedMerge(content: Option<CsvFile>, ts: seq<Record>, fp: Record -> string, now: string, rows: seq<Record>, accepted: seq<Record>)
    requires LoadExisting(content).Success? && AllMergeable(ts)
    requires rows == LoadExisting(content).value.rows && accepted == Imported(content, ts, fp, now).accepted
    ensures accepted != [] ==> Saved(content, ts, fp, now) == Some(Render(Numbered(StableSort(rows + accepted))))
    ensures accepted == [] ==> Saved(content, ts, fp, now) == content
  {
  }

  /** The records the loop accepts can be sorted and viewed: they carry a post date, an integer `_parse_seq` and a string hash. */
  lemma AcceptedSortable(txns: seq<Record>, hs: seq<string>, known: set<string>, now: string, offset: int)
    requires AllMergeable(txns) && |hs| == |txns|
    ensures forall t :: t in Dedup(txns, hs, known, now, offset, |txns|).accepted ==> Sortable(t) && Field(t, "hash").VStr?
  {
    var acc := Dedup(txns, hs, known, now, offset, |txns|).accepted;
    DedupAccepts(txns, hs, known, now, offset, |txns|);
    var idx := FreshIndices(hs, known, |txns|);
    forall t | t in acc ensures Sortable(t) && Field(t, "hash").VStr? {
      var k :| 0 <= k < |acc| && acc[k] == t;
      StampFields(txns[idx[k]], hs[idx[k]], now, offset);
    }
  }

  /** The ledger's rows and the accepted records together are all sortable, as `write_master_csv` needs. */
  lemma MergedSortable(content: Option<CsvFile>, ts: seq<Record>, fp: Record -> string, now: string)
    requires NoSeqColumn(content) && LoadExisting(content).Success? && AllMergeable(ts)
    ensures forall t :: t in LoadExisting(content).value.rows + Imported(content, ts, fp, now).accepted ==> Sortable(t)
  {
    var l := LoadExisting(content).value;
    LoadedRowsShape(content);
    AcceptedSortable(ts, Hashes(fp, ts), l.hashes, now, |l.rows|);
  }

  /** Every accepted record has a string hash, so the answer can list the views of the new records. */
  lemma ImportedViewable(content: Option<CsvFile>, ts: seq<Record>, fp: Record -> string, now: string)
    requires LoadExisting(content).Success? && AllMergeable(ts)
    ensures Views(Imported(content, ts, fp, now).accepted).Some?
  {
    var l := LoadExisting(content).value;
    AcceptedSortable(ts, Hashes(fp, ts), l.hashes, now, |l.rows|);
  }

  /** Every parsed record is either new or a skipped duplicate: `new + duplicates_skipped == parsed`. */
  lemma ImportCounts(content: Option<CsvFile>, ts: seq<Record>, fp: Record -> string, now: string)
    requires LoadExisting(content).Success? && AllMergeable(ts)
    ensures |Imported(content, ts, fp, now).accepted| + Imported(content, ts, fp, now).dupCount == |ts|
  {
    var l := LoadExisting(content).value;
    DedupCounts(ts, Hashes(fp, ts), l.hashes, now, |l.rows|, |ts|);
  }

  /**
   * The file written after an import loads again, has no `_parse_seq`
   * column, holds the old rows plus the new ones, and, when it was
   * rewritten, lists them in ledger order.
   */
  lemma SavedLedgerShape(content: Option<CsvFile>, ts: seq<Record>, fp: Record -> string, now: string)
    requires NoSeqColumn(content) && LoadExisting(content).Success? && AllMergeable(ts)
    ensures var saved := Saved(content, ts, fp, now);
      NoSeqColumn(saved) && LoadExisting(saved).Success? &&
      |LoadExisting(saved).value.rows| == |LoadExisting(content).value.rows| + |Imported(content, ts, fp, now).accepted|
    ensures Imported(content, ts, fp, now).accepted != [] ==>
      Sorted(LoadExisting(Saved(content, ts, fp, now)).value.rows)
    ensures Imported(content, ts, fp, now).accepted == [] ==>
      LoadExisting(Saved(content, ts, fp, now)) == LoadExisting(content)
    ensures Imported(content, ts, fp, now).accepted != [] ==>
      var merged := LoadExisting(content).value.rows + Imported(content, ts, fp, now).accepted;
      var reloaded := LoadExisting(Saved(content, ts, fp, now)).value.rows;
      (forall t :: t in merged ==> exists s :: s in reloaded && s - {"txn_id"} == Persist(t) - {"txn_id"}) &&
      (forall s :: s in reloaded ==> exists t :: t in merged && s - {"txn_id"} == Persist(t) - {"txn_id"})
  {
    var rows := LoadExisting(content).value.rows;
    var accepted := Imported(content, ts, fp, now).accepted;
    SavedMerge(content, ts, fp, now, rows, accepted);
    if accepted != [] {
      var numbered := Numbered(StableSort(rows + accepted));
      RenderedNoSeqColumn(numbered);
      LoadRendered(numbered);
      WrittenLedgerSorted(rows + accepted, numbered);
      WrittenRecords(rows + accepted);
    }
  }

  /** The ledger file changes exactly when the import accepted a new record. */
  lemma SavedIffNew(content: Option<CsvFile>, ts: seq<Record>, fp: Record -> string, now: string)
    requires NoSeqColumn(content) && LoadExisting(content).Success? && AllMergeable(ts)
    ensures Saved(content, ts, fp, now) == content <==> Imported(content, ts, fp, now).accepted == []
  {
    SavedLedgerShape(content, ts, fp, now);
  }

  /** `compute_hash` gives every record the loop sees a non-empty fingerprint. */
  lemma HashOfNonEmpty(digest: HexDigest, ts: seq<Record>)
    requires AllMergeable(ts)
    ensures forall t :: t in ts ==> HashOf(digest)(t) != ""
  {
    forall t | t in ts ensures HashOf(digest)(t) != "" {
      var i :| 0 <= i < |ts| && ts[i] == t;
      assert Hashable(t);
      var h := ComputeHash(digest, t);
      assert HashOf(digest)(t) == h && |h| == 32;
    }
  }

  /** A hash known after the loop was known before or is carried by an accepted record. */
  lemma ImportedKnownFrom(content: Option<CsvFile>, ts: seq<Record>, fp: Record -> string, now: string, h: string)
    requires LoadExisting(content).Success? && AllMergeable(ts)
    requires forall t :: t in ts ==> fp(t) != ""
    requires h in Imported(content, ts, fp, now).known && h !in LoadExisting(content).value.hashes
    ensures var out := Imported(content, ts, fp, now);
      h != [] && exists k :: 0 <= k < |out.accepted| && Get(out.accepted[k], "hash", VNone) == VStr(h)
  {
    var l := LoadExisting(content).value;
    var hs := Hashes(fp, ts);
    var out := Imported(content, ts, fp, now);
    DedupKnownAccepted(ts, hs, l.hashes, now, |l.rows|, |ts|, h);
    var k :| 0 <= k < |out.accepted| && Get(out.accepted[k], "hash", VNone) == VStr(h);
    AcceptedHash(ts, hs, l.hashes, now, |l.rows|, |ts|, k);
    assert ts[FreshIndices(hs, l.hashes, |ts|)[k]] in ts;
  }

  /** The hash an accepted record carries is known after the loop. */
  lemma AcceptedHashKnown(content: Option<CsvFile>, ts: seq<Record>, fp: Record -> string, now: string, h: string, k: nat)
    requires LoadExisting(content).Success? && AllMergeable(ts)
    requires k < |Imported(content, ts, fp, now).accepted|
    requires Get(Imported(content, ts, fp, now).accepted[k], "hash", VNone) == VStr(h)
    ensures h in Imported(content, ts, fp, now).known
  {
    var l := LoadExisting(content).value;
    var hs := Hashes(fp, ts);
    DedupKnown(ts, hs, l.hashes, now, |l.rows|, |ts|);
    AcceptedHash(ts, hs, l.hashes, now, |l.rows|, |ts|, k);
    assert hs[..|ts|][FreshIndices(hs, l.hashes, |ts|)[k]] == h;
  }

  /** A hash is known after the loop exactly when the ledger or one of the accepted records carries it. */
  lemma ImportedKnownIff(content: Option<CsvFile>, ts: seq<Record>, fp: Record -> string, now: string, h: string)
    requires LoadExisting(content).Success? && AllMergeable(ts)
    requires forall t :: t in ts ==> fp(t) != ""
    ensures var out := Imported(content, ts, fp, now);
      h in out.known <==>
      h in LoadExisting(content).value.hashes ||
      (h != [] && exists k :: 0 <= k < |out.accepted| && Get(out.accepted[k], "hash", VNone) == VStr(h))
  {
    var l := LoadExisting(content).value;
    var out := Imported(content, ts, fp, now);
    if h in out.known && h !in l.hashes {
      ImportedKnownFrom(content, ts, fp, now, h);
    }
    DedupKnown(ts, Hashes(fp, ts), l.hashes, now, |l.rows|, |ts|);
    if exists k :: 0 <= k < |out.accepted| && Get(out.accepted[k], "hash", VNone) == VStr(h) {
      var k :| 0 <= k < |out.accepted| && Get(out.accepted[k], "hash", VNone) == VStr(h);
      AcceptedHashKnown(content, ts, fp, now, h, k);
    }
  }

  /** Writing rows with text or missing hashes and reading them back gives the union of their hash sets. */
  lemma MergedHashSet(rows: seq<Record>, acc: seq<Record>)
    requires forall t :: t in rows ==> !Get(t, "hash", VNone).VInt?
    requires forall t :: t in acc ==> !Get(t, "hash", VNone).VInt?
    ensures LoadExisting(Some(Render(Numbered(StableSort(rows + acc))))).Success?
    ensures LoadExisting(Some(Render(Numbered(StableSort(rows + acc))))).value.hashes == HashesOf(rows) + HashesOf(acc)
  {
    WrittenHashes(rows + acc);
    LoadRendered(Numbered(StableSort(rows + acc)));
    HashesOfConcat(rows, acc);
  }

  /** The reloaded ledger's hash set is the old one plus the hashes of the accepted records. */
  lemma SavedHashUnion(content: Option<CsvFile>, ts: seq<Record>, fp: Record -> string, now: string)
    requires NoSeqColumn(content) && LoadExisting(content).Success? && AllMergeable(ts)
    ensures LoadExisting(Saved(content, ts, fp, now)).Success?
    ensures LoadExisting(Saved(content, ts, fp, now)).value.hashes ==
      LoadExisting(content).value.hashes + HashesOf(Imported(content, ts, fp, now).accepted)
  {
    var l := LoadExisting(content).value;
    var accepted := Imported(content, ts, fp, now).accepted;
    SavedMerge(content, ts, fp, now, l.rows, accepted);
    if accepted != [] {
      LoadedRowsShape(content);
      forall t | t in l.rows ensures !Get(t, "hash", VNone).VInt? {
        assert TextValues(t);
      }
      AcceptedSortable(ts, Hashes(fp, ts), l.hashes, now, |l.rows|);
      forall t | t in accepted ensures !Get(t, "hash", VNone).VInt? {
        assert Field(t, "hash").VStr?;
      }
      MergedHashSet(l.rows, accepted);
    }
  }

  /** After an import the reloaded ledger's hash set is the set the loop ended with. */
  lemma SavedHashes(content: Option<CsvFile>, ts: seq<Record>, fp: Record -> string, now: string)
    requires NoSeqColumn(content) && LoadExisting(content).Success? && AllMergeable(ts)
    requires forall t :: t in ts ==> fp(t) != ""
    ensures LoadExisting(Saved(content, ts, fp, now)).Success?
    ensures LoadExisting(Saved(content, ts, fp, now)).value.hashes == Imported(content, ts, fp, now).known
  {
    SavedHashUnion(content, ts, fp, now);
    var saved := LoadExisting(Saved(content, ts, fp, now)).value.hashes;
    var accepted := Imported(content, ts, fp, now).accepted;
    forall h ensures h in saved <==> h in Imported(content, ts, fp, now).known {
      ImportedKnownIff(content, ts, fp, now, h);
      HashesOfIff(accepted, h);
    }
  }

  /**
   * Importing the same statement again, at any later time, adds nothing:
   * every record is a duplicate of the first import.
   */
  lemma ReimportAcceptsNothing(content: Option<CsvFile>, ts: seq<Record>, fp: Record -> string, now: string, later: string)
    requires NoSeqColumn(content) && LoadExisting(content).Success? && AllMergeable(ts)
    requires forall t :: t in ts ==> fp(t) != ""
    ensures LoadExisting(Saved(content, ts, fp, now)).Success?
    ensures var again := Imported(Saved(content, ts, fp, now), ts, fp, later);
      again.accepted == [] && again.dupCount == |ts|
  {
    SavedHashes(content, ts, fp, now);
    var l := LoadExisting(content).value;
    var hs := Hashes(fp, ts);
    var known := Imported(content, ts, fp, now).known;
    DedupKnown(ts, hs, l.hashes, now, |l.rows|, |ts|);
    assert hs[..|ts|] == hs;
    var l2 := LoadExisting(Saved(content, ts, fp, now)).value;
    AllKnownAcceptsNothing(ts, hs, known, later, |l2.rows|);
  }

  /** No two rows carry the same non-empty hash. */
  predicate DistinctHashes(rows: seq<Record>) {
    forall i, j :: 0 <= i < j < |rows| && Get(rows[i], "hash", VNone).VStr? && Get(rows[i], "hash", VNone).s != [] ==>
      Get(rows[i], "hash", VNone) != Get(rows[j], "hash", VNone)
  }

  /** Appending records with distinct hashes outside the rows' hash set keeps the hashes distinct. */
  lemma AppendFreshDistinct(rows: seq<Record>, known: set<string>, acc: seq<Record>)
    requires DistinctHashes(rows)
    requires forall i :: 0 <= i < |rows| && Get(rows[i], "hash", VNone).VStr? && Get(rows[i], "hash", VNone).s != [] ==>
      Get(rows[i], "hash", VNone).s in known
    requires forall k :: 0 <= k < |acc| ==> "hash" in acc[k] && acc[k]["hash"].VStr? && acc[k]["hash"].s !in known
    requires forall a, b :: 0 <= a < b < |acc| ==> acc[a]["hash"] != acc[b]["hash"]
    ensures DistinctHashes(rows + acc)
  {
    var m := rows + acc;
    forall i, j | 0 <= i < j < |m| && Get(m[i], "hash", VNone).VStr? && Get(m[i], "hash", VNone).s != []
      ensures Get(m[i], "hash", VNone) != Get(m[j], "hash", VNone)
    {
      if j >= |rows| {
        assert m[j] == acc[j - |rows|];
        if i < |rows| {
          assert m[i] == rows[i];
        } else {
          assert m[i] == acc[i - |rows|];
        }
      } else {
        assert m[i] == rows[i] && m[j] == rows[j];
      }
    }
  }

  /**
   * The loop never adds a record whose hash the ledger or an earlier new
   * record already has, so a ledger without repeated hashes stays so once
   * the new records are appended.
   */
  lemma MergedHashesDistinct(content: Option<CsvFile>, ts: seq<Record>, fp: Record -> string, now: string)
    requires LoadExisting(content).Success? && AllMergeable(ts) && DistinctHashes(LoadExisting(content).value.rows)
    ensures DistinctHashes(LoadExisting(content).value.rows + Imported(content, ts, fp, now).accepted)
  {
    var l := LoadExisting(content).value;
    AcceptedFresh(ts, Hashes(fp, ts), l.hashes, now, |l.rows|);
    forall i | 0 <= i < |l.rows| && Get(l.rows[i], "hash", VNone).VStr? && Get(l.rows[i], "hash", VNone).s != []
      ensures Get(l.rows[i], "hash", VNone).s in l.hashes
    {
      LoadedHashes(content, Get(l.rows[i], "hash", VNone).s);
    }
    AppendFreshDistinct(l.rows, l.hashes, Imported(content, ts, fp, now).accepted);
  }
}
