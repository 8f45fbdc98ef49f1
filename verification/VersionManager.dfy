/**
 * Creating and pruning versions, and collecting garbage, one operation at a time
 * (src/version-manager.ts:22-148, src/deduplication-engine.ts:55-99, src/background-jobs.ts:63-86).
 */
module VersionManager {
  import opened Common
  import opened Collections
  import opened Sorting
  import opened MetadataStore
  import opened ReferenceCounts

  class DeduplicationEngine {
    const metadataStore: Store

    constructor (metadataStore: Store)
      ensures this.metadataStore == metadataStore
    {
      this.metadataStore := metadataStore;
    }

    /** Throws (`ok` is false) when the chunk has no row. */
    method IncrementReference(chunkHash: string) returns (ok: bool)
      modifies metadataStore
      ensures ok == (chunkHash in old(metadataStore.chunks))
      ensures metadataStore.Contents() ==
              old(metadataStore.Contents()).(chunks := Adjusted(old(metadataStore.chunks), chunkHash, 1))
      ensures !ok ==> metadataStore.Contents() == old(metadataStore.Contents())
      ensures ok ==> var row := old(metadataStore.chunks)[chunkHash];
                     metadataStore.chunks ==
                       old(metadataStore.chunks)[chunkHash := Chunk(row.size, row.referenceCount + 1)]
    {
      var chunk := metadataStore.GetChunk(chunkHash);
      if chunk.None? {
        return false;
      }
      metadataStore.IncrementChunkReference(chunkHash);
      return true;
    }

    /** Throws when the chunk has no row or no references left. */
    method DecrementReference(chunkHash: string) returns (ok: bool)
      modifies metadataStore
      ensures ok == (chunkHash in old(metadataStore.chunks) && old(metadataStore.chunks)[chunkHash].referenceCount > 0)
      ensures metadataStore.Contents() == old(metadataStore.Contents()).(chunks :=
                if ok then Adjusted(old(metadataStore.chunks), chunkHash, -1) else old(metadataStore.chunks))
      ensures ok ==> var row := old(metadataStore.chunks)[chunkHash];
                     metadataStore.chunks ==
                       old(metadataStore.chunks)[chunkHash := Chunk(row.size, row.referenceCount - 1)]
    {
      var chunk := metadataStore.GetChunk(chunkHash);
      if chunk.None? || chunk.value.referenceCount <= 0 {
        return false;
      }
      metadataStore.DecrementChunkReference(chunkHash);
      return true;
    }
  }

  class Manager {
    const metadataStore: Store
    const deduplicationEngine: DeduplicationEngine

    constructor (metadataStore: Store, deduplicationEngine: DeduplicationEngine)
      requires deduplicationEngine.metadataStore == metadataStore
      ensures this.metadataStore == metadataStore && this.deduplicationEngine == deduplicationEngine
      ensures Valid()
    {
      this.metadataStore := metadataStore;
      this.deduplicationEngine := deduplicationEngine;
    }

    ghost predicate Valid() {
      deduplicationEngine.metadataStore == metadataStore
    }

    /** `None` is the error of the insert. */
    method CreateVersion(fileId: string, chunkHashes: seq<string>, now: int) returns (created: Option<VersionKey>)
      requires Valid()
      modifies metadataStore
      ensures var t := old(metadataStore.Contents());
              var key := VersionKey(fileId, NextVersion(t.versions, fileId));
              && metadataStore.Contents() == Created(t, fileId, chunkHashes, now)
              && created == if key in t.versions || fileId !in t.files then None else Some(key)
      // Written out: the version stored, the file's pointer and the counts.
      ensures created.None? ==> metadataStore.Contents() == old(metadataStore.Contents())
      ensures created.Some? ==>
                var t, key, stored := old(metadataStore.Contents()), created.value, metadataStore.versions;
                && key == VersionKey(fileId, |set k | k in t.versions && k.fileId == fileId :: k.version| + 1)
                && key !in t.versions && fileId in t.files && key in stored
                && stored[key] == Version(chunkHashes, ListSize(t.chunks, chunkHashes), now)
                && stored == t.versions[key := stored[key]]
                && metadataStore.files == t.files[fileId := File(t.files[fileId].ownerId, key.version)]
                && metadataStore.chunks.Keys == t.chunks.Keys
                && forall h :: h in t.chunks ==>
                   metadataStore.chunks[h] ==
                     Chunk(t.chunks[h].size, t.chunks[h].referenceCount + multiset(chunkHashes)[h])
    {
      hide Bumped, ListSize;
      CreatedWritten(metadataStore.Contents(), fileId, chunkHashes, now);
      ghost var t := metadataStore.Contents();
      var existing := metadataStore.ListFileVersions(fileId);
      var nextVersion := |existing| + 1;

      var totalSize := 0;
      var i := 0;
      ListSizeStep(t.chunks, chunkHashes, 0);
      while i < |chunkHashes|
        invariant 0 <= i <= |chunkHashes| && metadataStore.Contents() == t
        invariant totalSize == ListSize(t.chunks, chunkHashes[..i])
      {
        ListSizeStep(t.chunks, chunkHashes, i);
        var chunk := metadataStore.GetChunk(chunkHashes[i]);
        if chunk.Some? {
          totalSize := totalSize + chunk.value.size;
        }
        i := i + 1;
      }
      assert chunkHashes[..i] == chunkHashes;

      var key := VersionKey(fileId, nextVersion);
      var ok := metadataStore.CreateFileVersion(key, Version(chunkHashes, totalSize, now));
      if !ok {
        return None;
      }

      ghost var stored := metadataStore.Contents();
      i := 0;
      BumpedStep(t.chunks, [], "");
      while i < |chunkHashes|
        invariant 0 <= i <= |chunkHashes|
        invariant metadataStore.Contents() == stored.(chunks := Bumped(t.chunks, chunkHashes[..i]))
      {
        assert chunkHashes[..i + 1] == chunkHashes[..i] + [chunkHashes[i]];
        BumpedStep(t.chunks, chunkHashes[..i], chunkHashes[i]);
        var _ := deduplicationEngine.IncrementReference(chunkHashes[i]);
        i := i + 1;
      }
      assert chunkHashes[..i] == chunkHashes;

      metadataStore.UpdateCurrentVersion(fileId, nextVersion);
      return Some(key);
    }

    /** Decrements once per entry, ignoring refusals. */
    method ReleaseVersion(chunkHashes: seq<string>)
      requires Valid()
      modifies metadataStore
      ensures metadataStore.Contents() ==
              old(metadataStore.Contents()).(chunks := LoweredBy(old(metadataStore.chunks), chunkHashes))
    {
      hide LoweredBy;
      ghost var t := metadataStore.Contents();
      var i := 0;
      LoweredByStep(t.chunks, [], "");
      while i < |chunkHashes|
        invariant 0 <= i <= |chunkHashes|
        invariant metadataStore.Contents() == t.(chunks := LoweredBy(t.chunks, chunkHashes[..i]))
      {
        assert chunkHashes[..i + 1] == chunkHashes[..i] + [chunkHashes[i]];
        LoweredByStep(t.chunks, chunkHashes[..i], chunkHashes[i]);
        var _ := deduplicationEngine.DecrementReference(chunkHashes[i]);
        i := i + 1;
      }
      assert chunkHashes[..i] == chunkHashes;
    }

    method PruneVersions(fileId: string, now: int, retentionDays: int) returns (deleted: nat)
      requires Valid()
      modifies metadataStore
      ensures var cutoff := Cutoff(now, retentionDays);
              && metadataStore.Contents() == Pruned(old(metadataStore.Contents()), fileId, cutoff)
              && deleted == |Doomed(old(metadataStore.versions), fileId, cutoff)|
      // Written out: what goes is older than the retention period, in days of 86400000 milliseconds.
      ensures forall k :: k in metadataStore.versions <==>
                && k in old(metadataStore.versions)
                && !(&& k.fileId == fileId
                     && old(metadataStore.versions)[k].createdAt < now - retentionDays * 86400000
                     && exists k' ::
                          k' in old(metadataStore.versions) && k'.fileId == fileId && k'.version > k.version)
      ensures forall k :: k in metadataStore.versions ==> metadataStore.versions[k] == old(metadataStore.versions)[k]
      ensures deleted == |old(metadataStore.versions)| - |metadataStore.versions|
      ensures metadataStore.files == old(metadataStore.files)
      ensures metadataStore.chunks.Keys == old(metadataStore.chunks).Keys
      ensures forall h :: h in metadataStore.chunks ==>
                var row, n := old(metadataStore.chunks)[h],
                              Occurrences(old(metadataStore.versions) - metadataStore.versions.Keys, h);
                && metadataStore.chunks[h].size == row.size
                && metadataStore.chunks[h].referenceCount ==
                     if row.referenceCount <= 0 then row.referenceCount
                     else if n <= row.referenceCount then row.referenceCount - n else 0
    {
      hide Without, IsDoomed, Doomed, DoomedAmong, Listing, VersionNumbers, LoweredBy, Elements;
      ghost var t := metadataStore.Contents();
      var listed := metadataStore.ListFileVersions(fileId);
      var versions := metadataStore.versions;
      var cutoff := Cutoff(now, retentionDays);
      var sorted := SortAscending(Elements(listed));
      SortedIsListing(versions, fileId, sorted);
      var latestVersion := if sorted == [] then -1 else sorted[|sorted| - 1];

      deleted := 0;
      ghost var gone: Versions := map[];
      NoneGone(t);
      NoneDoomed(versions, fileId, cutoff, sorted);
      var i := 0;
      while i < |sorted|
        invariant 0 <= i <= |sorted|
        invariant gone == DoomedAmong(versions, fileId, cutoff, sorted[..i]) && deleted == |gone|
        invariant metadataStore.Contents() == Without(t, gone)
      {
        var key := VersionKey(fileId, sorted[i]);
        DoomedAmongStep(versions, fileId, cutoff, sorted, i);
        if sorted[i] != latestVersion && versions[key].createdAt < cutoff {
          OneMoreGone(t, gone, key, versions[key]);
          ReleaseVersion(versions[key].chunkHashes);
          metadataStore.DeleteFileVersion(key);
          deleted := deleted + 1;
          gone := gone[key := versions[key]];
        }
        i := i + 1;
      }
      AllDoomed(versions, fileId, cutoff, sorted);
      PrunedVersions(t, fileId, now, retentionDays);
      PrunedRest(t, fileId, cutoff);
      ReleasedAt(t.chunks, Doomed(t.versions, fileId, cutoff));
    }
  }

  /** What a successful creation leaves. */
  lemma CreatedWritten(t: Tables, fileId: string, chunkHashes: seq<string>, now: int)
    ensures NextVersion(t.versions, fileId) == |set k | k in t.versions && k.fileId == fileId :: k.version| + 1
    ensures var key, t' := VersionKey(fileId, NextVersion(t.versions, fileId)), Created(t, fileId, chunkHashes, now);
            key !in t.versions && fileId in t.files ==>
              && key in t'.versions
              && t'.versions[key] == Version(chunkHashes, ListSize(t.chunks, chunkHashes), now)
              && t'.versions == t.versions[key := t'.versions[key]]
              && t'.files == t.files[fileId := File(t.files[fileId].ownerId, key.version)]
              && t'.chunks.Keys == t.chunks.Keys
              && forall h :: h in t.chunks ==>
                 t'.chunks[h] == Chunk(t.chunks[h].size, t.chunks[h].referenceCount + multiset(chunkHashes)[h])
  {
    hide ListSize;
    assert VersionNumbers(t.versions, fileId) == set k | k in t.versions && k.fileId == fileId :: k.version;
  }

  const MS_PER_DAY := 24 * 60 * 60 * 1000

  function Cutoff(now: int, retentionDays: int): int {
    now - retentionDays * MS_PER_DAY
  }

  lemma IsOldHere(versions: Versions, fileId: string, now: int, retentionDays: int, k: VersionKey)
    ensures IsDoomed(versions, fileId, Cutoff(now, retentionDays), k) <==>
            && k in versions && k.fileId == fileId && versions[k].createdAt < now - retentionDays * 86400000
            && exists k' :: k' in versions && k'.fileId == fileId && k'.version > k.version
  {
  }

  /** What a prune leaves: versions inside the retention period, the latest one, and those of other files. */
  lemma PrunedVersions(t: Tables, fileId: string, now: int, retentionDays: int)
    ensures var versions := Pruned(t, fileId, Cutoff(now, retentionDays)).versions;
            && (forall k :: k in versions <==>
                  && k in t.versions
                  && !(&& k.fileId == fileId && t.versions[k].createdAt < now - retentionDays * 86400000
                       && exists k' :: k' in t.versions && k'.fileId == fileId && k'.version > k.version))
            && (forall k :: k in versions ==> versions[k] == t.versions[k])
  {
    hide IsDoomed, Released, Cutoff;
    forall k { IsOldHere(t.versions, fileId, now, retentionDays, k); }
  }

  lemma SplitOff<K, V>(m: map<K, V>, gone: map<K, V>)
    requires gone.Keys <= m.Keys && forall k :: k in gone ==> gone[k] == m[k]
    ensures |gone| == |m| - |m - gone.Keys| && m - (m - gone.Keys).Keys == gone
  {
    assert m.Keys == (m - gone.Keys).Keys + gone.Keys;
    assert |(m - gone.Keys).Keys + gone.Keys| == |(m - gone.Keys).Keys| + |gone.Keys|;
  }

  lemma PrunedRest(t: Tables, fileId: string, cutoff: int)
    ensures var t' := Pruned(t, fileId, cutoff);
            && |Doomed(t.versions, fileId, cutoff)| == |t.versions| - |t'.versions|
            && t.versions - t'.versions.Keys == Doomed(t.versions, fileId, cutoff)
            && t'.files == t.files && t'.chunks == Released(t.chunks, Doomed(t.versions, fileId, cutoff))
  {
    hide IsDoomed, Released;
    SplitOff(t.versions, Doomed(t.versions, fileId, cutoff));
  }

  lemma ReleasedAt(chunks: Chunks, gone: Versions)
    ensures Released(chunks, gone).Keys == chunks.Keys
    ensures forall h :: h in Released(chunks, gone) ==>
              var count, n := chunks[h].referenceCount, Occurrences(gone, h);
              && Released(chunks, gone)[h].size == chunks[h].size
              && Released(chunks, gone)[h].referenceCount ==
                 if count <= 0 then count else if n <= count then count - n else 0
  {
    hide Occurrences;
  }

  lemma ListSizeStep(chunks: Chunks, list: seq<string>, i: nat)
    requires i <= |list|
    ensures ListSize(chunks, list[..0]) == 0
    ensures i < |list| ==> ListSize(chunks, list[..i + 1]) ==
                           ListSize(chunks, list[..i]) + if list[i] in chunks then chunks[list[i]].size else 0
  {
    if i < |list| {
      assert list[..i + 1][..i] == list[..i];
    }
  }

  /** The doomed versions with a number in `numbers`. */
  function DoomedAmong(versions: Versions, fileId: string, cutoff: int, numbers: seq<int>): Versions {
    map k | k in versions && IsDoomed(versions, fileId, cutoff, k) && k.version in numbers :: versions[k]
  }

  /** `sorted` lists the file's version numbers in ascending order. */
  ghost predicate Listing(versions: Versions, fileId: string, sorted: seq<int>) {
    && (forall i, j :: 0 <= i < j < |sorted| ==> sorted[i] < sorted[j])
    && (forall i :: 0 <= i < |sorted| ==> VersionKey(fileId, sorted[i]) in versions)
    && (forall k :: k in versions && k.fileId == fileId ==> k.version in sorted)
  }

  lemma SortedIsListing(versions: Versions, fileId: string, sorted: seq<int>)
    requires Elements(sorted) == VersionNumbers(versions, fileId)
    requires forall i, j :: 0 <= i < j < |sorted| ==> sorted[i] < sorted[j]
    ensures Listing(versions, fileId, sorted)
  {
    assert forall v :: v in sorted <==> v in Elements(sorted);
    forall i | 0 <= i < |sorted| ensures VersionKey(fileId, sorted[i]) in versions {
      assert sorted[i] in Elements(sorted);
    }
    forall k | k in versions && k.fileId == fileId ensures k.version in sorted {
      assert k.version in VersionNumbers(versions, fileId);
    }
  }

  lemma NoneDoomed(versions: Versions, fileId: string, cutoff: int, sorted: seq<int>)
    ensures DoomedAmong(versions, fileId, cutoff, sorted[..0]) == map[]
  {
  }

  /** The loop's two tests say exactly that the version is doomed. */
  lemma IsDoomedHere(versions: Versions, fileId: string, cutoff: int, sorted: seq<int>, i: nat)
    requires Listing(versions, fileId, sorted) && i < |sorted|
    ensures IsDoomed(versions, fileId, cutoff, VersionKey(fileId, sorted[i])) <==>
            sorted[i] != sorted[|sorted| - 1] && versions[VersionKey(fileId, sorted[i])].createdAt < cutoff
  {
    var last := VersionKey(fileId, sorted[|sorted| - 1]);
    assert last in versions;
    forall k | k in versions && k.fileId == fileId ensures k.version <= last.version {
      assert k.version in sorted;
    }
  }

  lemma DoomedIsOfFile(versions: Versions, fileId: string, cutoff: int, k: VersionKey)
    requires IsDoomed(versions, fileId, cutoff, k)
    ensures k.fileId == fileId
  {
  }

  lemma NoneGone(t: Tables)
    ensures Without(t, map[]) == t
  {
    ReleasedNothing(t.chunks);
    assert t.versions - {} == t.versions;
  }

  lemma OneMoreKey<K, V>(m: map<K, V>, k: K, v: V)
    requires k !in m
    ensures m[k := v].Keys == m.Keys + {k} && |m[k := v]| == |m| + 1
  {
    assert m[k := v].Keys == m.Keys + {k};
    assert |m.Keys + {k}| == |m.Keys| + 1;
  }

  lemma ExceptOneMore<K, V>(m: map<K, V>, s: set<K>, k: K)
    ensures m - s - {k} == m - (s + {k})
  {
  }

  lemma OneMoreGone(t: Tables, gone: Versions, k: VersionKey, v: Version)
    requires k !in gone
    ensures var now := Without(t, gone);
            now.(chunks := LoweredBy(now.chunks, v.chunkHashes), versions := now.versions - {k}) ==
              Without(t, gone[k := v])
    ensures |gone[k := v]| == |gone| + 1
  {
    hide Released, LoweredBy;
    ReleasedStep(t.chunks, gone, k, v);
    OneMoreKey(gone, k, v);
    ExceptOneMore(t.versions, gone.Keys, k);
  }

  lemma DoomedAmongAdd(versions: Versions, fileId: string, cutoff: int, numbers: seq<int>, number: int)
    requires number !in numbers && VersionKey(fileId, number) in versions
    ensures var key, before := VersionKey(fileId, number), DoomedAmong(versions, fileId, cutoff, numbers);
            && key !in before
            && DoomedAmong(versions, fileId, cutoff, numbers + [number]) ==
               if IsDoomed(versions, fileId, cutoff, key) then before[key := versions[key]] else before
  {
    hide IsDoomed;
    forall k | k in versions && IsDoomed(versions, fileId, cutoff, k) ensures k.fileId == fileId {
      DoomedIsOfFile(versions, fileId, cutoff, k);
    }
  }

  lemma DoomedAmongStep(versions: Versions, fileId: string, cutoff: int, sorted: seq<int>, i: nat)
    requires Listing(versions, fileId, sorted) && i < |sorted|
    ensures var key := VersionKey(fileId, sorted[i]);
            var before := DoomedAmong(versions, fileId, cutoff, sorted[..i]);
            && key in versions && key !in before
            && DoomedAmong(versions, fileId, cutoff, sorted[..i + 1]) ==
               if sorted[i] != sorted[|sorted| - 1] && versions[key].createdAt < cutoff
               then before[key := versions[key]] else before
  {
    hide IsDoomed, DoomedAmong;
    IsDoomedHere(versions, fileId, cutoff, sorted, i);
    assert sorted[..i + 1] == sorted[..i] + [sorted[i]];
    assert sorted[i] !in sorted[..i];
    DoomedAmongAdd(versions, fileId, cutoff, sorted[..i], sorted[i]);
  }

  lemma AllDoomed(versions: Versions, fileId: string, cutoff: int, sorted: seq<int>)
    requires Listing(versions, fileId, sorted)
    ensures DoomedAmong(versions, fileId, cutoff, sorted[..|sorted|]) == Doomed(versions, fileId, cutoff)
  {
    assert sorted[..|sorted|] == sorted;
  }

  /**
   * Garbage collection.  Each storage node is abstracted to the set of chunks it holds; any
   * node deletion and any row deletion may fail, as the two oracles say.
   */
  class BackgroundJobs {
    const metadataStore: Store
    var storageNodes: seq<set<string>>

    constructor (metadataStore: Store, storageNodes: seq<set<string>>)
      ensures this.metadataStore == metadataStore && this.storageNodes == storageNodes
    {
      this.metadataStore := metadataStore;
      this.storageNodes := storageNodes;
    }

    method DeleteFromNodes(chunkHash: string, nodeFails: (nat, string) -> bool)
      modifies this`storageNodes
      ensures storageNodes == ClearedOf(old(storageNodes), {chunkHash}, nodeFails)
    {
      var n := 0;
      while n < |storageNodes|
        invariant 0 <= n <= |storageNodes| == |old(storageNodes)|
        invariant forall m :: 0 <= m < n ==> storageNodes[m] == ClearedOf(old(storageNodes), {chunkHash}, nodeFails)[m]
        invariant forall m :: n <= m < |storageNodes| ==> storageNodes[m] == old(storageNodes)[m]
      {
        if !nodeFails(n, chunkHash) {
          storageNodes := storageNodes[n := storageNodes[n] - {chunkHash}];
        }
        n := n + 1;
      }
    }

    method GarbageCollect(nodeFails: (nat, string) -> bool, rowFails: string -> bool) returns (deleted: nat)
      modifies this`storageNodes, metadataStore
      ensures metadataStore.Contents() == Collected(old(metadataStore.Contents()), rowFails)
      ensures deleted == |old(metadataStore.chunks)| - |metadataStore.chunks|
      // The replica rows of exactly the chunks removed go with them.
      ensures metadataStore.replicas ==
                Cascaded(old(metadataStore.replicas), old(metadataStore.chunks), metadataStore.chunks)
      ensures storageNodes == ClearedOf(old(storageNodes), Orphans(old(metadataStore.chunks)), nodeFails)
      // Written out: rows, replica rows and copies of the chunks that count zero.
      ensures metadataStore.files == old(metadataStore.files) && metadataStore.versions == old(metadataStore.versions)
      ensures forall h :: h in metadataStore.chunks <==>
                h in old(metadataStore.chunks) && (old(metadataStore.chunks)[h].referenceCount != 0 || rowFails(h))
      ensures forall h :: h in metadataStore.chunks ==> metadataStore.chunks[h] == old(metadataStore.chunks)[h]
      ensures forall r :: r in metadataStore.replicas <==>
                && r in old(metadataStore.replicas)
                && (r.chunkHash in old(metadataStore.chunks) ==> r.chunkHash in metadataStore.chunks)
      ensures |storageNodes| == |old(storageNodes)|
      ensures forall n: nat :: n < |storageNodes| ==> storageNodes[n] <= old(storageNodes)[n]
      ensures forall n: nat, h :: && n < |storageNodes| && h in storageNodes[n]
                                  && h in old(metadataStore.chunks)
                                  && old(metadataStore.chunks)[h].referenceCount == 0 ==>
                nodeFails(n, h)
      ensures forall n: nat, h :: && n < |storageNodes| && h in old(storageNodes)[n]
                                  && !(&& h in old(metadataStore.chunks)
                                       && old(metadataStore.chunks)[h].referenceCount == 0 && !nodeFails(n, h)) ==>
                h in storageNodes[n]
    {
      hide ClearedOf, Swept, Cascaded, ReplicasWithout;
      ghost var t := metadataStore.Contents();
      ghost var rows := metadataStore.replicas;
      ghost var nodes := storageNodes;
      var orphans := metadataStore.GetOrphanedChunks();
      deleted := 0;
      ClearedOfNone(nodes, nodeFails);
      SweptNone(t.chunks, rowFails);
      CascadedNone(rows, t.chunks);
      assert Elements(orphans[..0]) == {};
      var i := 0;
      while i < |orphans|
        invariant 0 <= i <= |orphans|
        invariant metadataStore.Contents() == t.(chunks := Swept(t.chunks, orphans[..i], rowFails))
        invariant deleted == |t.chunks| - |metadataStore.chunks|
        invariant metadataStore.replicas == Cascaded(rows, t.chunks, metadataStore.chunks)
        invariant storageNodes == ClearedOf(nodes, Elements(orphans[..i]), nodeFails)
      {
        assert orphans[..i + 1] == orphans[..i] + [orphans[i]];
        PrefixElements(orphans, i);
        ClearedOfStep(nodes, Elements(orphans[..i]), orphans[i], nodeFails);
        SweptStep(t.chunks, orphans, i, rowFails);
        DeleteFromNodes(orphans[i], nodeFails);
        if !rowFails(orphans[i]) {
          CascadedStep(rows, t.chunks, metadataStore.chunks, orphans[i]);
          metadataStore.DeleteChunk(orphans[i]);
          deleted := deleted + 1;
        }
        i := i + 1;
      }
      assert orphans[..i] == orphans;
      assert Elements(orphans) == Orphans(t.chunks);
      SweptIsCollected(t, orphans, rowFails);
      CascadedAt(rows, t.chunks, metadataStore.chunks);
      ClearedOfIs(old(storageNodes), old(metadataStore.chunks), nodeFails, storageNodes);
    }
  }

  /** The replica rows left when the chunk rows go from `before` to `after`. */
  function Cascaded(rows: set<Replica>, before: Chunks, after: Chunks): set<Replica> {
    set r | r in rows && (r.chunkHash in before ==> r.chunkHash in after)
  }

  lemma CascadedAt(rows: set<Replica>, before: Chunks, after: Chunks)
    ensures forall r :: r in Cascaded(rows, before, after) <==>
              r in rows && (r.chunkHash in before ==> r.chunkHash in after)
  {
  }

  lemma CascadedNone(rows: set<Replica>, chunks: Chunks)
    ensures Cascaded(rows, chunks, chunks) == rows
  {
  }

  lemma CascadedStep(rows: set<Replica>, before: Chunks, after: Chunks, h: string)
    requires h in before
    ensures Cascaded(rows, before, after - {h}) == ReplicasWithout(Cascaded(rows, before, after), h)
  {
  }

  function Orphans(chunks: Chunks): set<string> {
    set h | h in chunks && chunks[h].referenceCount == 0
  }

  function ClearedOf(nodes: seq<set<string>>, gone: set<string>,
                     nodeFails: (nat, string) -> bool): (r: seq<set<string>>)
    ensures |r| == |nodes|
  {
    seq(|nodes|, n requires 0 <= n < |nodes| => set h | h in nodes[n] && (h !in gone || nodeFails(n, h)))
  }

  lemma ClearedOfIs(nodes: seq<set<string>>, chunks: Chunks, nodeFails: (nat, string) -> bool,
                    after: seq<set<string>>)
    requires after == ClearedOf(nodes, Orphans(chunks), nodeFails)
    ensures |after| == |nodes|
    ensures forall n: nat :: n < |after| ==> after[n] <= nodes[n]
    ensures forall n: nat, h :: n < |after| && h in after[n] && h in chunks && chunks[h].referenceCount == 0 ==>
              nodeFails(n, h)
    ensures forall n: nat, h :: && n < |after| && h in nodes[n]
                                && !(h in chunks && chunks[h].referenceCount == 0 && !nodeFails(n, h)) ==>
              h in after[n]
  {
  }

  lemma ClearedOfNone(nodes: seq<set<string>>, nodeFails: (nat, string) -> bool)
    ensures ClearedOf(nodes, {}, nodeFails) == nodes
  {
    forall n | 0 <= n < |nodes| ensures ClearedOf(nodes, {}, nodeFails)[n] == nodes[n] {}
  }

  lemma ClearedOfStep(nodes: seq<set<string>>, gone: set<string>, h: string, nodeFails: (nat, string) -> bool)
    ensures ClearedOf(nodes, gone + {h}, nodeFails) == ClearedOf(ClearedOf(nodes, gone, nodeFails), {h}, nodeFails)
  {
    var a, b := ClearedOf(nodes, gone + {h}, nodeFails), ClearedOf(ClearedOf(nodes, gone, nodeFails), {h}, nodeFails);
    forall n | 0 <= n < |nodes| ensures a[n] == b[n] {
      assert forall x :: x in a[n] <==> x in b[n];
    }
  }

  function Swept(chunks: Chunks, gone: seq<string>, rowFails: string -> bool): Chunks {
    map h | h in chunks && (h !in gone || rowFails(h)) :: chunks[h]
  }

  lemma SweptNone(chunks: Chunks, rowFails: string -> bool)
    ensures Swept(chunks, [], rowFails) == chunks
  {
  }

  lemma SweptIsCollected(t: Tables, orphans: seq<string>, rowFails: string -> bool)
    requires forall h :: h in orphans <==> h in t.chunks && t.chunks[h].referenceCount == 0
    ensures t.(chunks := Swept(t.chunks, orphans, rowFails)) == Collected(t, rowFails)
  {
  }

  lemma SweptStep(chunks: Chunks, orphans: seq<string>, i: nat, rowFails: string -> bool)
    requires i < |orphans| && orphans[i] in chunks
    requires Distinct(orphans)
    ensures var before, h := Swept(chunks, orphans[..i], rowFails), orphans[i];
            h in before && Swept(chunks, orphans[..i + 1], rowFails) == if rowFails(h) then before else before - {h}
  {
    assert orphans[..i + 1] == orphans[..i] + [orphans[i]];
  }
}
