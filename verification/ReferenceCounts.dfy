/**
 * How often stored versions mention a chunk, and what creating, pruning and collecting do to
 * the counts (src/version-manager.ts, src/deduplication-engine.ts, src/background-jobs.ts:63-86).
 */
module ReferenceCounts {
  import opened Sums
  import opened MetadataStore

  // ---------- occurrences ----------

  function Mult(list: seq<string>, h: string): nat {
    multiset(list)[h]
  }

  lemma MultStep(list: seq<string>, h: string, x: string)
    ensures Mult([], x) == 0
    ensures Mult(list + [h], x) == Mult(list, x) + (if x == h then 1 else 0)
  {
  }

  ghost function Mentions(versions: Versions, h: string): map<VersionKey, int> {
    map k | k in versions :: Mult(versions[k].chunkHashes, h)
  }

  /** The multiplicity of `h` over all stored versions. */
  ghost function Occurrences(versions: Versions, h: string): (n: nat) {
    SumNonNegative(Mentions(versions, h));
    Sum(Mentions(versions, h))
  }

  lemma OccurrencesInsert(versions: Versions, k: VersionKey, v: Version, h: string)
    requires k !in versions
    ensures Occurrences(versions[k := v], h) == Occurrences(versions, h) + Mult(v.chunkHashes, h)
  {
    assert Mentions(versions[k := v], h) == Mentions(versions, h)[k := Mult(v.chunkHashes, h)];
    SumUpdate(Mentions(versions, h), k, Mult(v.chunkHashes, h));
  }

  lemma OccurrencesRemove(versions: Versions, k: VersionKey, h: string)
    requires k in versions
    ensures Occurrences(versions, h) == Mult(versions[k].chunkHashes, h) + Occurrences(versions - {k}, h)
  {
    assert Mentions(versions - {k}, h) == Mentions(versions, h) - {k};
    SumRemove(Mentions(versions, h), k);
  }

  lemma OccurrencesZeroIff(versions: Versions, h: string)
    ensures Occurrences(versions, h) == 0 <==> forall k :: k in versions ==> h !in versions[k].chunkHashes
  {
    if k :| k in versions && h in versions[k].chunkHashes {
      SumAtLeast(Mentions(versions, h), k);
    } else {
      SumZero(Mentions(versions, h));
    }
  }

  /** Taking one version out of both parts. */
  lemma OccurrencesSplitStep(versions: Versions, gone: Versions, k: VersionKey, h: string)
    requires k in gone && k in versions && gone[k] == versions[k]
    requires Occurrences(versions - {k}, h) ==
             Occurrences(gone - {k}, h) + Occurrences(versions - {k} - (gone - {k}).Keys, h)
    ensures Occurrences(versions, h) == Occurrences(gone, h) + Occurrences(versions - gone.Keys, h)
  {
    hide Occurrences, Mult;
    OccurrencesRemove(gone, k, h);
    OccurrencesRemove(versions, k, h);
    assert versions - {k} - (gone - {k}).Keys == versions - gone.Keys;
  }

  /** Splitting the stored versions in two splits the occurrences. */
  lemma {:induction false} OccurrencesSplit(versions: Versions, gone: Versions, h: string)
    requires gone.Keys <= versions.Keys && forall k :: k in gone ==> gone[k] == versions[k]
    ensures Occurrences(versions, h) == Occurrences(gone, h) + Occurrences(versions - gone.Keys, h)
    decreases |gone|
  {
    hide Occurrences;
    if gone == map[] {
      assert versions - gone.Keys == versions;
      OccurrencesZeroIff(gone, h);
    } else {
      var k :| k in gone;
      OccurrencesSplit(versions - {k}, gone - {k}, h);
      OccurrencesSplitStep(versions, gone, k, h);
    }
  }

  // ---------- counting up and down ----------

  /** The counts after one successful increment per entry of `list`. */
  function Bumped(chunks: Chunks, list: seq<string>): Chunks {
    map h | h in chunks :: chunks[h].(referenceCount := chunks[h].referenceCount + Mult(list, h))
  }

  lemma BumpedStep(chunks: Chunks, list: seq<string>, h: string)
    ensures Bumped(chunks, []) == chunks
    ensures Bumped(chunks, list + [h]) == Adjusted(Bumped(chunks, list), h, 1)
  {
    hide Mult;
    forall x { MultStep(list, h, x); }
  }

  /** `n` decrements of a count that refuses to go below zero. */
  function Lowered(count: int, n: nat): int {
    if count <= 0 then count else if n <= count then count - n else 0
  }

  function LoweredBy(chunks: Chunks, list: seq<string>): Chunks {
    map h | h in chunks :: chunks[h].(referenceCount := Lowered(chunks[h].referenceCount, Mult(list, h)))
  }

  lemma LoweredByStep(chunks: Chunks, list: seq<string>, h: string)
    ensures LoweredBy(chunks, []) == chunks
    ensures var before := LoweredBy(chunks, list);
            LoweredBy(chunks, list + [h]) ==
            if h in before && before[h].referenceCount > 0 then Adjusted(before, h, -1) else before
  {
    hide Mult;
    forall x { MultStep(list, h, x); }
  }

  /** The counts once every version in `gone` has given up its references. */
  ghost function Released(chunks: Chunks, gone: Versions): Chunks {
    map h | h in chunks :: chunks[h].(referenceCount := Lowered(chunks[h].referenceCount, Occurrences(gone, h)))
  }

  lemma ReleasedStep(chunks: Chunks, gone: Versions, k: VersionKey, v: Version)
    requires k !in gone
    ensures Released(chunks, gone[k := v]) == LoweredBy(Released(chunks, gone), v.chunkHashes)
  {
    hide Occurrences, Mult;
    forall h { OccurrencesInsert(gone, k, v, h); }
  }

  lemma ReleasedNothing(chunks: Chunks)
    ensures Released(chunks, map[]) == chunks
  {
    hide Occurrences;
    forall h { OccurrencesZeroIff(map[], h); }
  }

  /** The size recorded for a chunk list: unregistered chunks weigh nothing. */
  function ListSize(chunks: Chunks, list: seq<string>): nat {
    if list == [] then 0 else
      var h := list[|list| - 1];
      ListSize(chunks, list[..|list| - 1]) + if h in chunks then chunks[h].size else 0
  }

  // ---------- whole operations ----------

  function NextVersion(versions: Versions, fileId: string): nat {
    |VersionNumbers(versions, fileId)| + 1
  }

  /** Creating a version: the insert decides; only then are the counts raised. */
  function Created(t: Tables, fileId: string, chunkHashes: seq<string>, now: int): Tables {
    var next := NextVersion(t.versions, fileId);
    var key := VersionKey(fileId, next);
    if key in t.versions || fileId !in t.files then t else
      Tables(t.files[fileId := t.files[fileId].(currentVersion := next)],
             t.versions[key := Version(chunkHashes, ListSize(t.chunks, chunkHashes), now)],
             Bumped(t.chunks, chunkHashes))
  }

  /** A version of the file that is older than the cutoff and not the highest-numbered one. */
  predicate IsDoomed(versions: Versions, fileId: string, cutoff: int, k: VersionKey) {
    && k in versions && k.fileId == fileId && versions[k].createdAt < cutoff
    && exists k' :: k' in versions && k'.fileId == fileId && k'.version > k.version
  }

  function Doomed(versions: Versions, fileId: string, cutoff: int): Versions {
    map k | k in versions && IsDoomed(versions, fileId, cutoff, k) :: versions[k]
  }

  /** `t` with the versions `gone` deleted and their occurrences taken off the counts. */
  ghost function Without(t: Tables, gone: Versions): Tables {
    Tables(t.files, t.versions - gone.Keys, Released(t.chunks, gone))
  }

  ghost function Pruned(t: Tables, fileId: string, cutoff: int): Tables {
    Without(t, Doomed(t.versions, fileId, cutoff))
  }

  /** Collecting removes the zero-count rows whose deletion does not fail. */
  function Collected(t: Tables, rowFails: string -> bool): Tables {
    t.(chunks := map h | h in t.chunks && (t.chunks[h].referenceCount != 0 || rowFails(h)) :: t.chunks[h])
  }

  /** Pruning again at the same clock finds nothing to do. */
  lemma PruneTwiceIsOnce(t: Tables, fileId: string, cutoff: int)
    ensures Doomed(Pruned(t, fileId, cutoff).versions, fileId, cutoff) == map[]
    ensures Pruned(Pruned(t, fileId, cutoff), fileId, cutoff) == Pruned(t, fileId, cutoff)
  {
    hide Released, IsDoomed;
    var once := Pruned(t, fileId, cutoff);
    forall k ensures !IsDoomed(once.versions, fileId, cutoff, k) {
      DoomedShrinks(t.versions, fileId, cutoff, k);
    }
    ReleasedNothing(once.chunks);
  }

  lemma DoomedShrinks(versions: Versions, fileId: string, cutoff: int, k: VersionKey)
    ensures !IsDoomed(versions - Doomed(versions, fileId, cutoff).Keys, fileId, cutoff, k)
  {
  }

  /** A history that was not empty keeps its highest-numbered version. */
  lemma PruneKeepsLatest(t: Tables, fileId: string, cutoff: int, k: VersionKey)
    requires k in t.versions && k.fileId == fileId
    requires forall k' :: k' in t.versions && k'.fileId == fileId ==> k'.version <= k.version
    ensures k in Pruned(t, fileId, cutoff).versions
  {
  }
}
