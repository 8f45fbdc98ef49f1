/**
 * Double counting: bytes weighed by reference count are the bytes of the stored versions
 * (src/deduplication-engine.ts:158-174, src/version-manager.ts:31-50).
 */
module ByteConservation {
  import opened Collections
  import opened Sums
  import opened MetadataStore
  import opened ReferenceCounts
  import opened Conservation

  function Times(size: int, count: int): int { size * count }

  lemma TimesLaws(a: int, m: int, n: int)
    ensures Times(a, m + n) == Times(a, m) + Times(a, n)
    ensures Times(a, 0) == 0 && Times(a, 1) == a
    ensures a >= 0 && n >= 1 ==> Times(a, n) >= a
  {
  }

  ghost function VersionBytes(versions: Versions): int {
    Sum(map k | k in versions :: versions[k].size)
  }

  ghost function WeighedBytes(chunks: Chunks): int {
    Sum(Weights(chunks))
  }

  ghost function ListWeights(chunks: Chunks, list: seq<string>): map<string, int> {
    map h | h in chunks :: Times(chunks[h].size, Mult(list, h))
  }

  lemma {:induction false} ListWeight(chunks: Chunks, list: seq<string>)
    ensures Sum(ListWeights(chunks, list)) == ListSize(chunks, list)
  {
    hide Mult, Times;
    if list == [] {
      forall h ensures Mult([], h) == 0 { MultStep([], h, h); }
      forall h | h in chunks ensures Times(chunks[h].size, 0) == 0 { TimesLaws(chunks[h].size, 0, 0); }
      SumZero(ListWeights(chunks, list));
    } else {
      var init, x := list[..|list| - 1], list[|list| - 1];
      assert list == init + [x];
      ListWeight(chunks, init);
      forall h ensures Mult(list, h) == Mult(init, h) + (if h == x then 1 else 0) { MultStep(init, x, h); }
      var w := ListWeights(chunks, init);
      if x in chunks {
        TimesLaws(chunks[x].size, Mult(init, x), 1);
        assert ListWeights(chunks, list) == w[x := w[x] + chunks[x].size];
        SumUpdate(w, x, w[x] + chunks[x].size);
      } else {
        assert ListWeights(chunks, list) == w;
      }
    }
  }

  ghost function OccurrenceWeights(chunks: Chunks, versions: Versions): map<string, int> {
    map h | h in chunks :: Times(chunks[h].size, Occurrences(versions, h))
  }

  ghost function ListSizes(chunks: Chunks, versions: Versions): map<VersionKey, int> {
    map k | k in versions :: ListSize(chunks, versions[k].chunkHashes)
  }

  /** Summing chunk by chunk or version by version gives the same bytes. */
  lemma {:induction false} DoubleCounting(chunks: Chunks, versions: Versions)
    ensures Sum(OccurrenceWeights(chunks, versions)) == Sum(ListSizes(chunks, versions))
    decreases |versions|
  {
    hide Occurrences, ListSize, Mult, Times;
    if versions == map[] {
      forall h ensures Occurrences(versions, h) == 0 { OccurrencesZeroIff(versions, h); }
      forall h | h in chunks ensures Times(chunks[h].size, 0) == 0 { TimesLaws(chunks[h].size, 0, 0); }
      SumZero(OccurrenceWeights(chunks, versions));
      SumZero(ListSizes(chunks, versions));
    } else {
      var k :| k in versions;
      var rest := versions - {k};
      DoubleCounting(chunks, rest);
      ListWeight(chunks, versions[k].chunkHashes);
      forall h | h in chunks
        ensures OccurrenceWeights(chunks, versions)[h] ==
                ListWeights(chunks, versions[k].chunkHashes)[h] + OccurrenceWeights(chunks, rest)[h]
      {
        OccurrencesRemove(versions, k, h);
        TimesLaws(chunks[h].size, Mult(versions[k].chunkHashes, h), Occurrences(rest, h));
      }
      SumAdd(ListWeights(chunks, versions[k].chunkHashes), OccurrenceWeights(chunks, rest),
             OccurrenceWeights(chunks, versions));
      SumRemove(ListSizes(chunks, versions), k);
      assert ListSizes(chunks, versions) - {k} == ListSizes(chunks, rest);
    }
  }

  /** In a conserved state the weighed bytes are the bytes of all stored versions. */
  lemma BytesConserved(t: Tables)
    requires Conserved(t) && SizesRecorded(t)
    ensures WeighedBytes(t.chunks) == VersionBytes(t.versions)
  {
    hide Occurrences, ListSize, Times;
    DoubleCounting(t.chunks, t.versions);
    assert Weights(t.chunks) == OccurrenceWeights(t.chunks, t.versions);
    assert (map k | k in t.versions :: t.versions[k].size) == ListSizes(t.chunks, t.versions);
  }

  // ---------- recorded sizes stay right ----------

  lemma {:induction false} ListSizeFrame(a: Chunks, b: Chunks, list: seq<string>)
    requires forall h :: h in list ==> h in a && h in b && a[h].size == b[h].size
    ensures ListSize(a, list) == ListSize(b, list)
  {
    if list != [] {
      assert list == list[..|list| - 1] + [list[|list| - 1]];
      ListSizeFrame(a, b, list[..|list| - 1]);
    }
  }

  /** No operation changes the size of a chunk or drops one that is listed. */
  lemma ListedChunksKeepSize(t: Tables, op: Op, k: VersionKey, h: string)
    requires Conserved(t) && k in t.versions && h in t.versions[k].chunkHashes
    ensures h in t.chunks && h in Apply(t, op).chunks && Apply(t, op).chunks[h].size == t.chunks[h].size
  {
    hide Occurrences, IsDoomed, ListSize, Mult, Lowered;
    if op.Collect? {
      CollectConserves(t, op.rowFails);
    }
  }

  /** A version of the next state is an old one, or new with the size of its list in both states. */
  lemma NewVersionSize(t: Tables, op: Op, k: VersionKey)
    requires Conserved(t) && Safe(t, op) && k in Apply(t, op).versions
    ensures k in t.versions ==> Apply(t, op).versions[k] == t.versions[k]
    ensures k !in t.versions ==>
              && Apply(t, op).versions[k].size == ListSize(t.chunks, Apply(t, op).versions[k].chunkHashes)
              && Registered(t.chunks, Apply(t, op).versions[k].chunkHashes)
              && (forall h :: h in t.chunks ==>
                  h in Apply(t, op).chunks && Apply(t, op).chunks[h].size == t.chunks[h].size)
  {
    hide Occurrences, IsDoomed, ListSize, Mult, Lowered, NextVersion;
  }

  lemma StepRecordsSizes(t: Tables, op: Op)
    requires Conserved(t) && SizesRecorded(t) && Safe(t, op)
    ensures SizesRecorded(Apply(t, op))
  {
    hide Apply, Safe, ListSize, Occurrences;
    var t' := Apply(t, op);
    forall k | k in t'.versions ensures t'.versions[k].size == ListSize(t'.chunks, t'.versions[k].chunkHashes) {
      NewVersionSize(t, op, k);
      if k in t.versions {
        forall h | h in t.versions[k].chunkHashes { ListedChunksKeepSize(t, op, k, h); }
      }
      ListSizeFrame(t.chunks, t'.chunks, t'.versions[k].chunkHashes);
    }
  }

  lemma {:induction false} SafeRunRecordsSizes(ops: seq<Op>, i: nat)
    requires AllSafe(ops) && i <= |ops|
    ensures SizesRecorded(Run(ops[..i]))
  {
    hide Conserved, Safe, Apply, SizesRecorded;
    if i == 0 {
      EmptyConserved();
    } else {
      SafeRunRecordsSizes(ops, i - 1);
      SafeRunConserves(ops, i - 1);
      RunStep(ops, i - 1);
      StepRecordsSizes(Run(ops[..i - 1]), ops[i - 1]);
    }
  }

  /** Throughout a safe run: the weighed bytes are the bytes of all stored versions. */
  lemma RunConservesBytes(ops: seq<Op>)
    requires AllSafe(ops)
    ensures WeighedBytes(Run(ops).chunks) == VersionBytes(Run(ops).versions)
  {
    hide Conserved, Safe, Apply, SizesRecorded, AllSafe;
    SafeRunConserves(ops, |ops|);
    SafeRunRecordsSizes(ops, |ops|);
    assert ops[..|ops|] == ops;
    BytesConserved(Run(ops));
  }

  // ---------- the reported ratio ----------

  function PhysicalStorage(rows: seq<Chunk>): int {
    if rows == [] then 0 else PhysicalStorage(rows[..|rows| - 1]) + rows[|rows| - 1].size
  }

  function LogicalStorage(rows: seq<Chunk>): int {
    if rows == [] then 0 else
      var last := rows[|rows| - 1];
      LogicalStorage(rows[..|rows| - 1]) + Times(last.size, last.referenceCount)
  }

  function DeduplicationRatio(rows: seq<Chunk>): real {
    if |rows| == 0 then 1.0 else
      var physical := PhysicalStorage(rows);
      if physical == 0 then 1.0 else LogicalStorage(rows) as real / physical as real
  }

  /** `rows` lists every row of the table once, in some order. */
  ghost predicate RowsOf(rows: seq<Chunk>, hashes: seq<string>, chunks: Chunks) {
    && |rows| == |hashes| && Elements(hashes) == chunks.Keys
    && (forall i, j :: 0 <= i < j < |hashes| ==> hashes[i] != hashes[j])
    && (forall i :: 0 <= i < |hashes| ==> hashes[i] in chunks && rows[i] == chunks[hashes[i]])
  }

  ghost function Weights(chunks: Chunks): map<string, int> {
    map h | h in chunks :: Times(chunks[h].size, chunks[h].referenceCount)
  }

  ghost function Sizes(chunks: Chunks): map<string, int> {
    map h | h in chunks :: chunks[h].size
  }

  lemma RowsOfInit(rows: seq<Chunk>, hashes: seq<string>, chunks: Chunks)
    requires RowsOf(rows, hashes, chunks) && rows != []
    ensures var n := |rows| - 1;
            hashes[n] in chunks && rows[n] == chunks[hashes[n]] && RowsOf(rows[..n], hashes[..n], chunks - {hashes[n]})
  {
    var n := |rows| - 1;
    assert hashes == hashes[..n] + [hashes[n]];
    assert Elements(hashes) == Elements(hashes[..n]) + {hashes[n]};
    assert hashes[n] !in Elements(hashes[..n]);
  }

  lemma RowOut(chunks: Chunks, h: string)
    requires h in chunks
    ensures Sum(Weights(chunks)) == Times(chunks[h].size, chunks[h].referenceCount) + Sum(Weights(chunks - {h}))
    ensures Sum(Sizes(chunks)) == chunks[h].size + Sum(Sizes(chunks - {h}))
  {
    hide Times;
    SumRemove(Weights(chunks), h);
    SumRemove(Sizes(chunks), h);
    assert Weights(chunks) - {h} == Weights(chunks - {h});
    assert Sizes(chunks) - {h} == Sizes(chunks - {h});
  }

  lemma NoRows(hashes: seq<string>, chunks: Chunks)
    requires RowsOf([], hashes, chunks)
    ensures Sum(Weights(chunks)) == 0 && Sum(Sizes(chunks)) == 0
  {
    assert Elements(hashes) == {};
  }

  lemma {:induction false} LogicalIsWeighed(rows: seq<Chunk>, hashes: seq<string>, chunks: Chunks)
    requires RowsOf(rows, hashes, chunks)
    ensures |rows| == |hashes|
    ensures LogicalStorage(rows) == Sum(Weights(chunks))
    ensures PhysicalStorage(rows) == Sum(Sizes(chunks))
  {
    hide Times, Sum, Weights, Sizes;
    if rows == [] {
      NoRows(hashes, chunks);
    } else {
      RowsOfInit(rows, hashes, chunks);
      hide RowsOf;
      var n := |rows| - 1;
      RowOut(chunks, hashes[n]);
      LogicalIsWeighed(rows[..n], hashes[..n], chunks - {hashes[n]});
    }
  }

  lemma {:induction false} LogicalAtLeastPhysical(rows: seq<Chunk>)
    requires forall i :: 0 <= i < |rows| ==> rows[i].referenceCount >= 1
    ensures LogicalStorage(rows) >= PhysicalStorage(rows) >= 0
  {
    if rows != [] {
      LogicalAtLeastPhysical(rows[..|rows| - 1]);
      TimesLaws(rows[|rows| - 1].size, 0, rows[|rows| - 1].referenceCount);
    }
  }

  lemma QuotientAtLeastOne(a: real, b: real)
    requires a >= b > 0.0
    ensures a / b >= 1.0
  {
  }

  lemma RatioIs(rows: seq<Chunk>)
    ensures PhysicalStorage(rows) != 0 ==>
              DeduplicationRatio(rows) == LogicalStorage(rows) as real / PhysicalStorage(rows) as real
    ensures PhysicalStorage(rows) == 0 ==> DeduplicationRatio(rows) == 1.0
    ensures LogicalStorage(rows) >= PhysicalStorage(rows) >= 0 ==> DeduplicationRatio(rows) >= 1.0
  {
    hide LogicalStorage;
    var logical, physical := LogicalStorage(rows), PhysicalStorage(rows);
    if logical >= physical > 0 {
      QuotientAtLeastOne(logical as real, physical as real);
    }
  }

  /** The last operation was a collection in which no row deletion failed. */
  ghost predicate EndsWithFullCollection(ops: seq<Op>) {
    ops != [] && ops[|ops| - 1].Collect? && var fails := ops[|ops| - 1].rowFails; forall h :: !fails(h)
  }

  lemma FullCollectionCounts(ops: seq<Op>)
    requires AllSafe(ops) && EndsWithFullCollection(ops)
    ensures forall h :: h in Run(ops).chunks ==> Run(ops).chunks[h].referenceCount > 0
  {
    hide Conserved, Safe, Apply;
    var n := |ops| - 1;
    SafeRunConserves(ops, n);
    CollectConserves(Run(ops[..n]), ops[n].rowFails);
    SafePruneCollect(Run(ops[..n]), ops[n]);
  }

  /**
   * The ratio reported after a safe run is stored-version bytes over unique bytes, or 1 when there
   * are none; right after a collection in which no deletion failed it is at least 1.
   */
  lemma RatioAfterRun(ops: seq<Op>, rows: seq<Chunk>, hashes: seq<string>)
    requires AllSafe(ops) && RowsOf(rows, hashes, Run(ops).chunks)
    ensures PhysicalStorage(rows) != 0 ==>
              DeduplicationRatio(rows) == VersionBytes(Run(ops).versions) as real / PhysicalStorage(rows) as real
    ensures PhysicalStorage(rows) == Sum(Sizes(Run(ops).chunks))
    ensures PhysicalStorage(rows) == 0 ==> DeduplicationRatio(rows) == 1.0
    ensures EndsWithFullCollection(ops) ==> DeduplicationRatio(rows) >= 1.0
  {
    hide AllSafe, Run, VersionBytes, PhysicalStorage, LogicalStorage, DeduplicationRatio, EndsWithFullCollection;
    RunConservesBytes(ops);
    LogicalIsWeighed(rows, hashes, Run(ops).chunks);
    RatioIs(rows);
    if EndsWithFullCollection(ops) {
      FullCollectionCounts(ops);
      LogicalAtLeastPhysical(rows);
    }
  }
}
