/**
 * The file, version and chunk tables (src/metadata-store.ts:72-250, docker/init-db.sql:4-42):
 * each method is the effect of one statement, keys and cascades included.
 */
module MetadataStore {
  import opened Common
  import opened Collections
  import opened Sorting

  datatype File = File(ownerId: string, currentVersion: int)

  datatype VersionKey = VersionKey(fileId: string, version: int)

  datatype Version = Version(chunkHashes: seq<string>, size: nat, createdAt: int)

  datatype Chunk = Chunk(size: nat, referenceCount: int)

  /** The row that says a node holds a copy of a chunk. */
  datatype Replica = Replica(chunkHash: string, nodeId: string)

  type Files = map<string, File>
  type Versions = map<VersionKey, Version>
  type Chunks = map<string, Chunk>

  datatype Tables = Tables(files: Files, versions: Versions, chunks: Chunks)

  /** The numbers of the stored versions of one file. */
  function VersionNumbers(versions: Versions, fileId: string): set<int> {
    set k | k in versions && k.fileId == fileId :: k.version
  }

  /** `UPDATE ... SET reference_count = reference_count + delta`: no row, no effect. */
  function Adjusted(chunks: Chunks, chunkHash: string, delta: int): Chunks {
    if chunkHash in chunks
    then chunks[chunkHash := chunks[chunkHash].(referenceCount := chunks[chunkHash].referenceCount + delta)]
    else chunks
  }

  class Store {
    var files: Files
    var versions: Versions
    var chunks: Chunks
    var replicas: set<Replica>

    ghost function Contents(): Tables
      reads this
    {
      Tables(files, versions, chunks)
    }

    constructor ()
      ensures Contents() == Tables(map[], map[], map[]) && replicas == {}
    {
      files, versions, chunks, replicas := map[], map[], map[], {};
    }

    /** Fails on a taken primary key. */
    method CreateFile(fileId: string, file: File) returns (ok: bool)
      modifies this`files
      ensures ok == (fileId !in old(files))
      ensures Contents() == old(Contents()).(files := if ok then old(files)[fileId := file] else old(files))
    {
      ok := fileId !in files;
      if ok {
        files := files[fileId := file];
      }
    }

    method UpdateCurrentVersion(fileId: string, currentVersion: int)
      modifies this`files
      ensures Contents() == old(Contents()).(files :=
                if fileId !in old(files) then old(files)
                else old(files)[fileId := old(files)[fileId].(currentVersion := currentVersion)])
    {
      if fileId in files {
        files := files[fileId := files[fileId].(currentVersion := currentVersion)];
      }
    }

    /** Deleting a file deletes its versions with it. */
    method DeleteFile(fileId: string)
      modifies this`files, this`versions
      ensures Contents() == WithoutFile(old(Contents()), fileId)
      // Written out: the counts stay.
      ensures files == old(files) - {fileId} && chunks == old(chunks)
      ensures forall k :: k in versions <==> k in old(versions) && k.fileId != fileId
      ensures forall k :: k in versions ==> versions[k] == old(versions)[k]
    {
      files := files - {fileId};
      versions := map k | k in versions && k.fileId != fileId :: versions[k];
    }

    /** Fails on a taken (file, version) pair and for a file that does not exist. */
    method CreateFileVersion(key: VersionKey, version: Version) returns (ok: bool)
      modifies this`versions
      ensures ok == (key !in old(versions) && key.fileId in old(files))
      ensures Contents() == old(Contents()).(versions := if ok then old(versions)[key := version] else old(versions))
    {
      ok := key !in versions && key.fileId in files;
      if ok {
        versions := versions[key := version];
      }
    }

    /** `ORDER BY version DESC`. */
    method ListFileVersions(fileId: string) returns (numbers: seq<int>)
      ensures Elements(numbers) == VersionNumbers(versions, fileId) && |numbers| == |VersionNumbers(versions, fileId)|
      ensures forall i, j :: 0 <= i < j < |numbers| ==> numbers[i] > numbers[j]
      ensures forall v :: v in numbers <==> VersionKey(fileId, v) in versions
    {
      numbers := SortDescending(VersionNumbers(versions, fileId));
      forall v ensures v in numbers <==> VersionKey(fileId, v) in versions {
        assert v in numbers <==> v in Elements(numbers);
        NumberOfKey(versions, fileId, v);
      }
    }

    method DeleteFileVersion(key: VersionKey)
      modifies this`versions
      ensures Contents() == old(Contents()).(versions := old(versions) - {key})
    {
      versions := versions - {key};
    }

    /** `ON CONFLICT DO NOTHING`. */
    method CreateChunk(chunkHash: string, chunk: Chunk)
      modifies this`chunks
      ensures Contents() == old(Contents()).(chunks :=
                if chunkHash in old(chunks) then old(chunks) else old(chunks)[chunkHash := chunk])
    {
      if chunkHash !in chunks {
        chunks := chunks[chunkHash := chunk];
      }
    }

    method GetChunk(chunkHash: string) returns (r: Option<Chunk>)
      ensures r == if chunkHash in chunks then Some(chunks[chunkHash]) else None
    {
      r := if chunkHash in chunks then Some(chunks[chunkHash]) else None;
    }

    method IncrementChunkReference(chunkHash: string)
      modifies this`chunks
      ensures Contents() == old(Contents()).(chunks := Adjusted(old(chunks), chunkHash, 1))
    {
      chunks := Adjusted(chunks, chunkHash, 1);
    }

    method DecrementChunkReference(chunkHash: string)
      modifies this`chunks
      ensures Contents() == old(Contents()).(chunks := Adjusted(old(chunks), chunkHash, -1))
    {
      chunks := Adjusted(chunks, chunkHash, -1);
    }

    /** `WHERE reference_count = 0`, in some order. */
    method GetOrphanedChunks() returns (orphans: seq<string>)
      ensures Distinct(orphans)
      ensures forall h :: h in orphans <==> h in chunks && chunks[h].referenceCount == 0
    {
      var zero := set h | h in chunks && chunks[h].referenceCount == 0;
      orphans := SortStrings(zero);
      SortedDistinct(orphans);
      assert forall h :: h in orphans <==> h in Elements(orphans);
    }

    /** Deleting a chunk deletes its replica rows with it. */
    method DeleteChunk(chunkHash: string)
      modifies this`chunks, this`replicas
      ensures Contents() == old(Contents()).(chunks := old(chunks) - {chunkHash})
      ensures replicas == ReplicasWithout(old(replicas), chunkHash)
    {
      chunks := chunks - {chunkHash};
      replicas := ReplicasWithout(replicas, chunkHash);
    }
  }

  lemma NumberOfKey(versions: Versions, fileId: string, v: int)
    ensures v in VersionNumbers(versions, fileId) <==> VersionKey(fileId, v) in versions
  {
  }

  function ReplicasWithout(replicas: set<Replica>, chunkHash: string): set<Replica> {
    set r | r in replicas && r.chunkHash != chunkHash
  }

  function WithoutFile(t: Tables, fileId: string): Tables {
    Tables(t.files - {fileId}, map k | k in t.versions && k.fileId != fileId :: t.versions[k], t.chunks)
  }
}
