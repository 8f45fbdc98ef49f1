/**
 * The chunk cache of the CDN gateway (src/cdn-gateway.ts:36-144, src/storage-node.ts:75-91, 174-178):
 * a map with last-access times that evicts the least recently used entry.
 */
module CdnGateway {
  import opened Common
  import opened Collections

  datatype Entry = Entry(data: Bytes, expiresAt: int, lastAccessed: int)

  type Cache = map<string, Entry>

  datatype FileVersion = FileVersion(fileId: string, version: int)

  /** What a storage node accepts as a chunk hash. */
  predicate ValidHash(h: string) {
    |h| == 64 && forall i :: 0 <= i < |h| ==> 'a' <= h[i] <= 'f' || '0' <= h[i] <= '9'
  }

  /** What the first storage node serves. */
  function Origin(storageNodes: seq<map<string, Bytes>>, h: string): Option<Bytes> {
    if storageNodes != [] && ValidHash(h) && h in storageNodes[0] then Some(storageNodes[0][h]) else None
  }

  // ---------- one request ----------

  predicate Live(cache: Cache, h: string, now: int) {
    h in cache && now <= cache[h].expiresAt
  }

  /** An entry no other entry was used before. */
  predicate LeastRecent(cache: Cache, k: string) {
    k in cache && forall j :: j in cache ==> cache[k].lastAccessed <= cache[j].lastAccessed
  }

  /** `after` is a cache that making room in `cache` may leave; the empty key is never evicted. */
  ghost predicate MadeRoom(cache: Cache, max: nat, after: Cache) {
    if |cache| < max || cache == map[] then after == cache
    else exists k :: LeastRecent(cache, k) && after == if k == "" then cache else cache - {k}
  }

  ghost predicate Stored(cache: Cache, max: nat, ttl: nat, h: string, data: Bytes, now: int, after: Cache) {
    exists room :: MadeRoom(cache, max, room) && after == room[h := Entry(data, now + ttl, now)]
  }

  /** A request for `h` that is answered with `data`: a hit renews the entry, a miss stores one. */
  ghost predicate Served(cache: Cache, max: nat, ttl: nat, h: string, data: Bytes, now: int, after: Cache) {
    if Live(cache, h, now) then data == cache[h].data && after == cache[h := cache[h].(lastAccessed := now)]
    else Stored(cache - {h}, max, ttl, h, data, now, after)
  }

  /** A request while the origin has `origin`: only a miss asks it, and one that gets nothing fails. */
  ghost predicate Requested(cache: Cache, max: nat, ttl: nat, origin: Option<Bytes>, h: string, now: int,
                            answer: Option<Bytes>, after: Cache) {
    && (answer.None? ==> origin.None? && !Live(cache, h, now) && after == cache - {h})
    && (answer.Some? ==>
        Served(cache, max, ttl, h, answer.value, now, after) && (Live(cache, h, now) || answer == origin))
  }

  // ---------- what every cache state satisfies ----------

  /** Within capacity, and no unevictable key. */
  ghost predicate CacheOk(cache: Cache, max: nat) {
    |cache| <= max && "" !in cache
  }

  lemma StoredOk(cache: Cache, max: nat, ttl: nat, h: string, data: Bytes, now: int, after: Cache)
    requires CacheOk(cache, max) && h !in cache && Stored(cache, max, ttl, h, data, now, after) && h != "" && max > 0
    ensures CacheOk(after, max)
  {
    hide LeastRecent;
    var room :| MadeRoom(cache, max, room) && after == room[h := Entry(data, now + ttl, now)];
    RoomMade(cache, max, room);
    hide MadeRoom, Stored;
    OneMoreEntry(room, h, Entry(data, now + ttl, now));
  }

  lemma RequestedOk(cache: Cache, max: nat, ttl: nat, nodes: seq<map<string, Bytes>>, h: string, now: int,
                    answer: Option<Bytes>, after: Cache)
    requires CacheOk(cache, max) && max > 0 && Requested(cache, max, ttl, Origin(nodes, h), h, now, answer, after)
    ensures CacheOk(after, max)
  {
    hide Stored, Origin;
    assert (cache - {h}).Keys == cache.Keys - {h};
    if Live(cache, h, now) {
      assert cache[h := cache[h].(lastAccessed := now)].Keys == cache.Keys;
    } else if answer.Some? {
      ValidHashNotEmpty(nodes, h);
      StoredOk(cache - {h}, max, ttl, h, answer.value, now, after);
    }
  }

  lemma OriginIs(storageNodes: seq<map<string, Bytes>>, h: string)
    ensures var served := |storageNodes| > 0 && h in storageNodes[0] && |h| == 64
                          && forall i :: 0 <= i < 64 ==> 'a' <= h[i] <= 'f' || '0' <= h[i] <= '9';
            Origin(storageNodes, h) == if served then Some(storageNodes[0][h]) else None
  {
  }

  /** What a request does to every entry that stays. */
  lemma RequestedIs(cache: Cache, max: nat, ttl: nat, origin: Option<Bytes>, h: string, now: int,
                    answer: Option<Bytes>, after: Cache)
    requires CacheOk(cache, max) && max > 0 && Requested(cache, max, ttl, origin, h, now, answer, after)
    ensures var live := h in cache && now <= cache[h].expiresAt;
            && answer == (if live then Some(cache[h].data) else origin)
            && (answer.None? ==> after == cache - {h})
            && (answer.Some? ==>
                h in after && after[h] == Entry(answer.value, if live then cache[h].expiresAt else now + ttl, now))
            && (forall k :: k in after && k != h ==> k in cache && after[k] == cache[k])
  {
    hide Stored;
    if answer.Some? && !Live(cache, h, now) {
      assert (cache - {h}).Keys == cache.Keys - {h};
      SubsetCardinality((cache - {h}).Keys, cache.Keys);
      StoredIs(cache - {h}, max, ttl, h, answer.value, now, after);
    }
  }

  /** And which entry it evicts. */
  lemma RequestEvicts(cache: Cache, max: nat, ttl: nat, origin: Option<Bytes>, h: string, now: int,
                      answer: Option<Bytes>, after: Cache, k: string)
    requires CacheOk(cache, max) && max > 0 && Requested(cache, max, ttl, origin, h, now, answer, after)
    requires k in cache && k != h && k !in after
    ensures |after| == max && !(h in cache && now <= cache[h].expiresAt)
    ensures forall j :: j in cache && j != h ==>
              cache[k].lastAccessed <= cache[j].lastAccessed && (j !in after ==> j == k)
  {
    hide Stored;
    assert (cache - {h}).Keys == cache.Keys - {h};
    SubsetCardinality((cache - {h}).Keys, cache.Keys);
    var others := cache - {h};
    assert k in others;
    if answer.Some? && !Live(cache, h, now) {
      StoredIs(others, max, ttl, h, answer.value, now, after);
      forall j | j in cache && j != h
        ensures cache[k].lastAccessed <= cache[j].lastAccessed && (j !in after ==> j == k)
      {
        assert j in others;
      }
    }
  }

  lemma StoredIs(cache: Cache, max: nat, ttl: nat, h: string, data: Bytes, now: int, after: Cache)
    requires |cache| <= max && max > 0 && "" !in cache && h !in cache && Stored(cache, max, ttl, h, data, now, after)
    ensures h in after && after[h] == Entry(data, now + ttl, now)
    ensures forall k :: k in after && k != h ==> k in cache && after[k] == cache[k]
    ensures forall k :: k in cache && k !in after ==>
              |after| == max && forall j :: j in cache ==>
                cache[k].lastAccessed <= cache[j].lastAccessed && (j !in after ==> j == k)
  {
    var room :| MadeRoom(cache, max, room) && after == room[h := Entry(data, now + ttl, now)];
    if |cache| == max {
      var k :| LeastRecent(cache, k) && room == if k == "" then cache else cache - {k};
      assert room.Keys == cache.Keys - {k};
      assert after.Keys == room.Keys + {h};
    }
  }

  lemma OneMoreEntry(cache: Cache, h: string, e: Entry)
    ensures |cache[h := e]| <= |cache| + 1
  {
    assert cache[h := e].Keys == cache.Keys + {h};
  }

  lemma RoomMade(cache: Cache, max: nat, room: Cache)
    requires MadeRoom(cache, max, room) && |cache| <= max && max > 0 && "" !in cache
    ensures |room| < max && room.Keys <= cache.Keys && forall j :: j in room ==> room[j] == cache[j]
  {
    if |cache| == max {
      var k :| LeastRecent(cache, k) && room == if k == "" then cache else cache - {k};
      assert (cache - {k}).Keys == cache.Keys - {k};
    }
  }

  lemma ValidHashNotEmpty(storageNodes: seq<map<string, Bytes>>, h: string)
    ensures Origin(storageNodes, h).Some? ==> h != ""
  {
  }

  // ---------- the gateway ----------

  datatype RangeError = StartNegative | EndBeforeStart | EndBeyondChunk | ChunkUnavailable

  datatype RangeResult = Range(bytes: Bytes) | RangeFails(error: RangeError)

  /** The answer to a range request when the chunk is `full`. */
  function RangeOf(full: Option<Bytes>, startByte: nat, endByte: int): RangeResult
    requires startByte <= endByte
  {
    if full.None? then RangeFails(ChunkUnavailable)
    else if endByte >= |full.value| then RangeFails(EndBeyondChunk)
    else Range(full.value[startByte..endByte + 1])
  }

  class Gateway {
    var storageNodes: seq<map<string, Bytes>>   // written and cleared by the other components
    const maxCacheEntries: nat
    const ttl: nat
    var cache: Cache
    var fileVersionChunks: map<FileVersion, seq<string>>

    ghost predicate Valid()
      reads this
    {
      maxCacheEntries > 0 && CacheOk(cache, maxCacheEntries)
    }

    constructor (storageNodes: seq<map<string, Bytes>>, maxCacheEntries: nat, ttl: nat)
      requires maxCacheEntries > 0
      ensures Valid() && cache == map[] && fileVersionChunks == map[]
      ensures this.storageNodes == storageNodes && this.maxCacheEntries == maxCacheEntries && this.ttl == ttl
    {
      this.storageNodes, this.maxCacheEntries, this.ttl := storageNodes, maxCacheEntries, ttl;
      cache, fileVersionChunks := map[], map[];
    }

    method GetCached(chunkHash: string, now: int) returns (data: Option<Bytes>)
      modifies this`cache
      ensures data.Some? == Live(old(cache), chunkHash, now)
      ensures data.Some? ==> data.value == old(cache)[chunkHash].data
      ensures data.Some? ==> cache == old(cache)[chunkHash := old(cache)[chunkHash].(lastAccessed := now)]
      ensures data.None? ==> cache == old(cache) - {chunkHash}
    {
      if chunkHash !in cache {
        assert cache == cache - {chunkHash};
        return None;
      }
      var entry := cache[chunkHash];
      if now > entry.expiresAt {
        cache := cache - {chunkHash};
        return None;
      }
      cache := cache[chunkHash := entry.(lastAccessed := now)];
      return Some(entry.data);
    }

    /** Scans for the smallest last-access time, in whatever order the map is walked. */
    method FindLeastRecent() returns (lruKey: string)
      ensures cache == map[] ==> lruKey == ""
      ensures cache != map[] ==> LeastRecent(cache, lruKey)
    {
      lruKey := "";
      var lruTime: Option<int> := None;   // None is the initial infinity
      var unseen := cache.Keys;
      while unseen != {}
        invariant unseen <= cache.Keys
        invariant lruTime.None? ==> unseen == cache.Keys && lruKey == ""
        invariant lruTime.Some? ==> lruKey in cache && cache[lruKey].lastAccessed == lruTime.value
        invariant lruTime.Some? ==> forall j :: j in cache && j !in unseen ==> lruTime.value <= cache[j].lastAccessed
        decreases |unseen|
      {
        var k :| k in unseen;
        if lruTime.None? || cache[k].lastAccessed < lruTime.value {
          lruTime := Some(cache[k].lastAccessed);
          lruKey := k;
        }
        unseen := unseen - {k};
      }
    }

    method PutCache(chunkHash: string, data: Bytes, now: int)
      modifies this`cache
      ensures Stored(old(cache), maxCacheEntries, ttl, chunkHash, data, now, cache)
    {
      ghost var before := cache;
      if |cache| >= maxCacheEntries {
        var lruKey := FindLeastRecent();
        if lruKey != "" {
          cache := cache - {lruKey};
        }
      }
      assert MadeRoom(before, maxCacheEntries, cache);
      cache := cache[chunkHash := Entry(data, now + ttl, now)];
    }

    /** Answers from a live entry, otherwise with the origin's bytes or not at all. */
    method GetChunk(chunkHash: string, now: int) returns (data: Option<Bytes>)
      requires Valid()
      modifies this`cache
      ensures Valid()
      ensures Requested(old(cache), maxCacheEntries, ttl, Origin(storageNodes, chunkHash), chunkHash, now, data, cache)
      // Written out: a live entry answers; otherwise the origin does, for 64 lower-case hexadecimal digits.
      ensures var live := chunkHash in old(cache) && now <= old(cache)[chunkHash].expiresAt;
              var served := |storageNodes| > 0 && chunkHash in storageNodes[0] && |chunkHash| == 64
                            && forall i :: 0 <= i < 64 ==>
                                 'a' <= chunkHash[i] <= 'f' || '0' <= chunkHash[i] <= '9';
              && data == (if live then Some(old(cache)[chunkHash].data)
                          else if served then Some(storageNodes[0][chunkHash]) else None)
              && (data.None? ==> cache == old(cache) - {chunkHash})
              && (data.Some? ==>
                  && chunkHash in cache
                  && cache[chunkHash] ==
                       Entry(data.value, if live then old(cache)[chunkHash].expiresAt else now + ttl, now))
              && (forall k :: k in cache && k != chunkHash ==> k in old(cache) && cache[k] == old(cache)[k])
      // What else leaves the cache: at most one entry, to make room for another, and none was used before it.
      ensures forall k :: k in old(cache) && k != chunkHash && k !in cache ==>
                && |cache| == maxCacheEntries
                && !(chunkHash in old(cache) && now <= old(cache)[chunkHash].expiresAt)
                && forall j :: j in old(cache) && j != chunkHash ==>
                   old(cache)[k].lastAccessed <= old(cache)[j].lastAccessed && (j !in cache ==> j == k)
    {
      hide ValidHash, CacheOk;
      OriginIs(storageNodes, chunkHash);
      data := GetCached(chunkHash, now);
      if data.None? {
        if storageNodes != [] && ValidHash(chunkHash) && chunkHash in storageNodes[0] {
          data := Some(storageNodes[0][chunkHash]);
          PutCache(chunkHash, data.value, now);
        }
      }
      RequestedOk(old(cache), maxCacheEntries, ttl, storageNodes, chunkHash, now, data, cache);
      ghost var before, origin := old(cache), Origin(storageNodes, chunkHash);
      RequestedIs(before, maxCacheEntries, ttl, origin, chunkHash, now, data, cache);
      forall k | k in before && k != chunkHash && k !in cache {
        RequestEvicts(before, maxCacheEntries, ttl, origin, chunkHash, now, data, cache, k);
      }
    }

    /** A range inside the chunk is answered with exactly those bytes of what a request answers. */
    method GetChunkRange(chunkHash: string, startByte: int, endByte: int, now: int) returns (r: RangeResult)
      requires Valid()
      modifies this`cache
      ensures Valid()
      ensures if startByte < 0 then r == RangeFails(StartNegative) && cache == old(cache)
              else if endByte < startByte then r == RangeFails(EndBeforeStart) && cache == old(cache)
              else exists full ::
                     && Requested(old(cache), maxCacheEntries, ttl, Origin(storageNodes, chunkHash), chunkHash, now,
                                  full, cache)
                     && r == RangeOf(full, startByte, endByte)
      // Written out: the errors in their order, and the bytes.
      ensures r == RangeFails(StartNegative) <==> startByte < 0
      ensures r == RangeFails(EndBeforeStart) <==> startByte >= 0 && endByte < startByte
      ensures var live := chunkHash in old(cache) && now <= old(cache)[chunkHash].expiresAt;
              var full := if live then Some(old(cache)[chunkHash].data) else Origin(storageNodes, chunkHash);
              0 <= startByte <= endByte ==>
                && (r == RangeFails(ChunkUnavailable) <==> full.None?)
                && (r == RangeFails(EndBeyondChunk) <==> full.Some? && endByte >= |full.value|)
                && (r.Range? ==>
                    && |r.bytes| == endByte - startByte + 1
                    && forall i :: 0 <= i < |r.bytes| ==> r.bytes[i] == full.value[startByte + i])
    {
      OriginIs(storageNodes, chunkHash);
      if startByte < 0 {
        return RangeFails(StartNegative);
      }
      if endByte < startByte {
        return RangeFails(EndBeforeStart);
      }
      var full := GetChunk(chunkHash, now);
      if full.None? {
        return RangeFails(ChunkUnavailable);
      }
      if endByte >= |full.value| {
        return RangeFails(EndBeyondChunk);
      }
      return Range(full.value[startByte..endByte + 1]);
    }

    method RegisterFileVersion(fileId: string, version: int, chunkHashes: seq<string>)
      modifies this`fileVersionChunks
      ensures fileVersionChunks == old(fileVersionChunks)[FileVersion(fileId, version) := chunkHashes]
    {
      fileVersionChunks := fileVersionChunks[FileVersion(fileId, version) := chunkHashes];
    }

    /** Drops every registered chunk of the version, and the registration. */
    method InvalidateCache(fileId: string, version: int)
      requires Valid()
      modifies this
      ensures Valid()
      ensures var key := FileVersion(fileId, version);
              && fileVersionChunks == old(fileVersionChunks) - {key}
              && cache == old(cache)
                          - Elements(if key in old(fileVersionChunks) then old(fileVersionChunks)[key] else [])
      // Written out.
      ensures var key := FileVersion(fileId, version);
              forall h :: h in cache <==>
                h in old(cache) && !(key in old(fileVersionChunks) && h in old(fileVersionChunks)[key])
      ensures forall h :: h in cache ==> cache[h] == old(cache)[h]
    {
      hide CacheOk;
      var key := FileVersion(fileId, version);
      var hashes := if key in fileVersionChunks then fileVersionChunks[key] else [];
      var i := 0;
      assert cache == cache - Elements(hashes[..0]);
      while i < |hashes|
        invariant 0 <= i <= |hashes| && fileVersionChunks == old(fileVersionChunks)
        invariant cache == old(cache) - Elements(hashes[..i])
      {
        assert hashes[..i + 1] == hashes[..i] + [hashes[i]];
        ElementsAppend(hashes[..i], hashes[i]);
        assert old(cache) - Elements(hashes[..i]) - {hashes[i]} == old(cache) - Elements(hashes[..i + 1]);
        cache := cache - {hashes[i]};
        i := i + 1;
      }
      assert hashes[..i] == hashes;
      fileVersionChunks := fileVersionChunks - {key};
      FewerEntriesOk(old(cache), cache, maxCacheEntries);
    }
  }

  lemma FewerEntriesOk(cache: Cache, after: Cache, max: nat)
    requires CacheOk(cache, max) && after.Keys <= cache.Keys
    ensures CacheOk(after, max)
  {
    SubsetCardinality(after.Keys, cache.Keys);
  }

  // ---------- whole histories ----------

  datatype Step =
    | Request(chunkHash: string, now: int, answer: Option<Bytes>)
    | Invalidate(chunkHashes: set<string>)

  type Nodes = seq<map<string, Bytes>>

  /** `caches[i]` is the cache before step `i`, and `nodes[i]` what the storage nodes hold then. */
  datatype History = History(caches: seq<Cache>, nodes: seq<Nodes>, steps: seq<Step>)

  ghost predicate StepOk(before: Cache, nodes: Nodes, step: Step, after: Cache, max: nat, ttl: nat) {
    match step
    case Request(h, now, answer) => Requested(before, max, ttl, Origin(nodes, h), h, now, answer, after)
    case Invalidate(hashes) => after == before - hashes
  }

  /** Any requests and invalidations, from an empty cache, while the nodes change in any way. */
  ghost predicate Possible(t: History, max: nat, ttl: nat) {
    && |t.caches| == |t.steps| + 1 && |t.nodes| == |t.steps| && t.caches[0] == map[]
    && forall i :: 0 <= i < |t.steps| ==> StepOk(t.caches[i], t.nodes[i], t.steps[i], t.caches[i + 1], max, ttl)
  }

  /** Capacity is kept in every history. */
  lemma {:induction false} CapacityIsKept(t: History, max: nat, ttl: nat, i: nat)
    requires Possible(t, max, ttl) && max > 0 && i <= |t.steps|
    ensures CacheOk(t.caches[i], max)
  {
    hide Requested, Origin;
    if i > 0 {
      CapacityIsKept(t, max, ttl, i - 1);
      assert StepOk(t.caches[i - 1], t.nodes[i - 1], t.steps[i - 1], t.caches[i], max, ttl);
      match t.steps[i - 1]
      case Request(h, now, answer) =>
        RequestedOk(t.caches[i - 1], max, ttl, t.nodes[i - 1], h, now, answer, t.caches[i]);
      case Invalidate(hashes) => FewerEntriesOk(t.caches[i - 1], t.caches[i], max);
    }
  }

  // ---------- answers are at most one TTL old ----------

  /** Step `j` asked the origin for `h`, and the entry is what it got. */
  ghost predicate Source(t: History, ttl: nat, j: nat, h: string, e: Entry)
    requires j < |t.steps| && |t.nodes| == |t.steps|
  {
    && t.steps[j].Request? && t.steps[j].chunkHash == h && t.steps[j].answer.Some?
    && e.expiresAt == t.steps[j].now + ttl && Origin(t.nodes[j], h) == Some(e.data)
  }

  /** What a request leaves of an entry, or where the entry comes from. */
  lemma EntryOrigin(cache: Cache, max: nat, ttl: nat, origin: Option<Bytes>, h: string, now: int,
                    answer: Option<Bytes>, after: Cache, k: string)
    requires Requested(cache, max, ttl, origin, h, now, answer, after) && k in after
    ensures || (k in cache && after[k].data == cache[k].data && after[k].expiresAt == cache[k].expiresAt)
            || (k == h && answer.Some? && after[k].expiresAt == now + ttl && origin == Some(after[k].data))
  {
    if answer.Some? && !Live(cache, h, now) {
      var room :| MadeRoom(cache - {h}, max, room) && after == room[h := Entry(answer.value, now + ttl, now)];
      assert k != h ==> k in room && room[k] == cache[k];
    }
  }

  lemma {:induction false} EntriesHaveSource(t: History, max: nat, ttl: nat, i: nat, h: string)
    requires Possible(t, max, ttl) && i <= |t.steps| && h in t.caches[i]
    ensures exists j: nat | j < i :: Source(t, ttl, j, h, t.caches[i][h])
  {
    hide Requested, Origin;
    if i > 0 {
      var before, after, step := t.caches[i - 1], t.caches[i], t.steps[i - 1];
      assert StepOk(before, t.nodes[i - 1], step, after, max, ttl);
      if step.Request? {
        EntryOrigin(before, max, ttl, Origin(t.nodes[i - 1], step.chunkHash), step.chunkHash, step.now, step.answer,
                    after, h);
        if step.chunkHash == h && step.answer.Some? && after[h].expiresAt == step.now + ttl &&
           Origin(t.nodes[i - 1], h) == Some(after[h].data)
        {
          assert Source(t, ttl, i - 1, h, after[h]);
        } else {
          EntriesHaveSource(t, max, ttl, i - 1, h);
          var j: nat :| j < i - 1 && Source(t, ttl, j, h, before[h]);
          assert Source(t, ttl, j, h, after[h]);
        }
      } else {
        EntriesHaveSource(t, max, ttl, i - 1, h);
      }
    }
  }

  /**
   * In every history, with nodes that change: an answer is what the origin has at that moment, or
   * had at an earlier request at most one TTL ago; and a request fails only when the origin has
   * nothing at that moment.
   */
  lemma AnswersAreRecent(t: History, max: nat, ttl: nat, i: nat)
    requires Possible(t, max, ttl) && i < |t.steps| && t.steps[i].Request?
    ensures var Request(h, now, answer) := t.steps[i];
            || answer == Origin(t.nodes[i], h)
            || exists j: nat | j < i :: && t.steps[j].Request? && t.steps[j].chunkHash == h
                                        && now <= t.steps[j].now + ttl && answer == Origin(t.nodes[j], h)
    ensures t.steps[i].answer.None? ==> Origin(t.nodes[i], t.steps[i].chunkHash).None?
  {
    hide Origin, Stored;
    assert StepOk(t.caches[i], t.nodes[i], t.steps[i], t.caches[i + 1], max, ttl);
    var Request(h, now, answer) := t.steps[i];
    if Live(t.caches[i], h, now) {
      EntriesHaveSource(t, max, ttl, i, h);
      var j: nat :| j < i && Source(t, ttl, j, h, t.caches[i][h]);
      assert answer == Origin(t.nodes[j], h);
    }
  }

  // ---------- when an answer is exact ----------

  /** Step `j` missed and got the chunk from the origin. */
  ghost predicate Fetches(t: History, j: nat, h: string)
    requires j < |t.steps| && j < |t.caches|
  {
    var step := t.steps[j];
    step.Request? && step.chunkHash == h && step.answer.Some? && !Live(t.caches[j], h, step.now)
  }

  /** Of the steps before `i`, `j` was the last that fetched `h`. */
  ghost predicate LastFetch(t: History, i: nat, h: string, j: nat)
    requires i <= |t.steps| && i <= |t.caches|
  {
    j < i && Fetches(t, j, h) && forall k: nat :: j < k < i ==> !Fetches(t, k, h)
  }

  /** What one request leaves of a cached chunk, or brings. */
  lemma EntryStep(cache: Cache, max: nat, ttl: nat, origin: Option<Bytes>, h: string, now: int,
                  answer: Option<Bytes>, after: Cache, k: string)
    requires Requested(cache, max, ttl, origin, h, now, answer, after) && k in after
    ensures if k == h && !Live(cache, h, now) then answer.Some? && origin == Some(after[k].data)
            else k in cache && after[k].data == cache[k].data
  {
    if answer.Some? && !Live(cache, h, now) {
      var room :| MadeRoom(cache - {h}, max, room) && after == room[h := Entry(answer.value, now + ttl, now)];
    }
  }

  /** A cached chunk is what its last fetch brought. */
  lemma {:induction false} EntryIsLastFetch(t: History, max: nat, ttl: nat, i: nat, h: string)
    requires Possible(t, max, ttl) && i <= |t.steps| && h in t.caches[i]
    ensures exists j: nat :: LastFetch(t, i, h, j) && Origin(t.nodes[j], h) == Some(t.caches[i][h].data)
  {
    hide Requested, Origin, Live;
    if i > 0 {
      var before, after, step := t.caches[i - 1], t.caches[i], t.steps[i - 1];
      assert StepOk(before, t.nodes[i - 1], step, after, max, ttl);
      if step.Request? {
        EntryStep(before, max, ttl, Origin(t.nodes[i - 1], step.chunkHash), step.chunkHash, step.now, step.answer,
                  after, h);
      }
      if step.Request? && step.chunkHash == h && !Live(before, h, step.now) {
        assert LastFetch(t, i, h, i - 1);
      } else {
        EntryIsLastFetch(t, max, ttl, i - 1, h);
        var j: nat :| LastFetch(t, i - 1, h, j) && Origin(t.nodes[j], h) == Some(before[h].data);
        assert LastFetch(t, i, h, j);
      }
    }
  }

  /** The origin's last fetched answer is still its answer. */
  ghost predicate FetchedIsCurrent(t: History, i: nat, h: string)
    requires i < |t.steps| && |t.nodes| == |t.steps| && |t.caches| == |t.steps| + 1
  {
    exists j: nat :: LastFetch(t, i, h, j) && Origin(t.nodes[j], h) == Origin(t.nodes[i], h)
  }

  /**
   * In every history: a request is answered as if there were no cache exactly when no live entry
   * answers it, or what was last fetched of the chunk is what the origin has now.
   */
  lemma AnswerIsExactIff(t: History, max: nat, ttl: nat, i: nat)
    requires Possible(t, max, ttl) && i < |t.steps| && t.steps[i].Request?
    ensures var Request(h, now, answer) := t.steps[i];
            answer == Origin(t.nodes[i], h) <==> !Live(t.caches[i], h, now) || FetchedIsCurrent(t, i, h)
  {
    hide Origin, Stored, Fetches;
    assert StepOk(t.caches[i], t.nodes[i], t.steps[i], t.caches[i + 1], max, ttl);
    var Request(h, now, answer) := t.steps[i];
    if Live(t.caches[i], h, now) {
      EntryIsLastFetch(t, max, ttl, i, h);
      var j: nat :| LastFetch(t, i, h, j) && Origin(t.nodes[j], h) == Some(t.caches[i][h].data);
      forall k: nat | LastFetch(t, i, h, k) ensures k == j {}
    }
  }

  /** While the nodes keep what they hold of a chunk, its requests are answered as if there were no cache. */
  lemma FixedOriginIsExact(t: History, max: nat, ttl: nat, i: nat)
    requires Possible(t, max, ttl) && i < |t.steps| && t.steps[i].Request?
    requires forall j :: 0 <= j < i ==>
               Origin(t.nodes[j], t.steps[i].chunkHash) == Origin(t.nodes[i], t.steps[i].chunkHash)
    ensures t.steps[i].answer == Origin(t.nodes[i], t.steps[i].chunkHash)
  {
    hide Origin, Possible;
    AnswersAreRecent(t, max, ttl, i);
  }

  /** A chunk is fetched, deleted from the node, and still served. */
  lemma StaleHit(h: string, data: Bytes)
    requires ValidHash(h)
    ensures var t := StaleHistory(h, data);
            Possible(t, 10, 5) && t.steps[1].answer == Some(data) && Origin(t.nodes[1], h) == None
  {
    var t := StaleHistory(h, data);
    assert MadeRoom(map[] - {h}, 10, map[]);
    assert Stored(map[] - {h}, 10, 5, h, data, 0, t.caches[1]);
    assert StepOk(t.caches[0], t.nodes[0], t.steps[0], t.caches[1], 10, 5);
    assert StepOk(t.caches[1], t.nodes[1], t.steps[1], t.caches[2], 10, 5);
  }

  function StaleHistory(h: string, data: Bytes): History {
    History([map[], map[h := Entry(data, 5, 0)], map[h := Entry(data, 5, 1)]],
            [[map[h := data]], [map[]]],
            [Request(h, 0, Some(data)), Request(h, 1, Some(data))])
  }

  // ---------- the stack theorem ----------

  /** The distinct hashes requested, most recent first. */
  function Recency(requests: seq<string>): seq<string> {
    if requests == [] then [] else
      var h := requests[|requests| - 1];
      [h] + Except(Recency(requests[..|requests| - 1]), h)
  }

  /** The hashes of the requests that were answered. */
  function Answered(steps: seq<Step>): seq<string> {
    if steps == [] then [] else
      var step := steps[|steps| - 1];
      Answered(steps[..|steps| - 1]) + if step.Request? && step.answer.Some? then [step.chunkHash] else []
  }

  /** Nothing but requests, answered or not, at a strictly increasing clock and within one TTL. */
  ghost predicate WithinTtl(steps: seq<Step>, ttl: nat) {
    && (forall i :: 0 <= i < |steps| ==> steps[i].Request?)
    && (forall i, j :: 0 <= i < j < |steps| ==> steps[i].now < steps[j].now <= steps[i].now + ttl)
  }

  /** The cache holds exactly `stack`, whose entries were used in that order, all before `bound`. */
  ghost predicate HoldsStack(cache: Cache, stack: seq<string>, bound: int) {
    && Distinct(stack) && cache.Keys == Elements(stack)
    && Ordered(cache, stack)
    && (forall h :: h in cache ==> cache[h].lastAccessed < bound)
  }

  ghost predicate Ordered(cache: Cache, stack: seq<string>) {
    && (forall i :: 0 <= i < |stack| ==> stack[i] in cache)
    && (forall i, j :: 0 <= i < j < |stack| ==> cache[stack[i]].lastAccessed > cache[stack[j]].lastAccessed)
  }

  lemma {:induction false} ExceptKeepsOrder(cache: Cache, stack: seq<string>, h: string)
    requires Ordered(cache, stack) && Distinct(stack)
    ensures Ordered(cache, Except(stack, h)) && Distinct(Except(stack, h))
    ensures Elements(Except(stack, h)) == Elements(stack) - {h}
  {
    forall x ensures x in Except(stack, h) <==> x in stack && x != h { ExceptMember(stack, h, x); }
    if stack != [] {
      var init := stack[..|stack| - 1];
      ExceptKeepsOrder(cache, init, h);
      forall i | 0 <= i < |Except(init, h)|
        ensures cache[Except(init, h)[i]].lastAccessed > cache[stack[|stack| - 1]].lastAccessed
                && Except(init, h)[i] != stack[|stack| - 1]
      {
        ExceptMember(init, h, Except(init, h)[i]);
      }
    }
  }

  /** Storing or renewing `h` puts it on top. */
  lemma PushTop(cache: Cache, stack: seq<string>, h: string, e: Entry, bound: int)
    requires HoldsStack(cache, stack, bound) && h !in stack && e.lastAccessed >= bound
    ensures HoldsStack(cache[h := e], [h] + stack, e.lastAccessed + 1)
  {
    assert forall x :: x in stack <==> x in Elements(stack);
    forall x ensures x in [h] + stack <==> x == h || x in stack {}
    var after, pushed := cache[h := e], [h] + stack;
    forall i | 0 <= i < |pushed| ensures pushed[i] in after && (i > 0 ==> after[pushed[i]] == cache[stack[i - 1]]) {
      if i > 0 { assert stack[i - 1] in stack; }
    }
    forall i, j | 0 <= i < j < |pushed| ensures after[pushed[i]].lastAccessed > after[pushed[j]].lastAccessed {
      if i == 0 {
        assert cache[stack[j - 1]].lastAccessed < bound;
      } else {
        assert cache[stack[i - 1]].lastAccessed > cache[stack[j - 1]].lastAccessed;
      }
    }
  }

  lemma HoldsPrefix(cache: Cache, stack: seq<string>, bound: int)
    requires HoldsStack(cache, stack, bound) && stack != []
    ensures HoldsStack(cache - {stack[|stack| - 1]}, stack[..|stack| - 1], bound)
    ensures forall k :: LeastRecent(cache, k) ==> k == stack[|stack| - 1]
  {
    var n := |stack| - 1;
    assert stack == stack[..n] + [stack[n]];
    ElementsAppend(stack[..n], stack[n]);
    assert stack[n] !in stack[..n];
    assert stack[n] !in Elements(stack[..n]);
    forall k | LeastRecent(cache, k) ensures k == stack[n] {
      assert k in Elements(stack);
      var i :| 0 <= i < |stack| && stack[i] == k;
      assert stack[n] in cache;
    }
  }

  lemma TakeCons(h: string, s: seq<string>, max: nat)
    requires max > 0
    ensures Take([h] + s, max) == [h] + Take(s, max - 1)
  {
  }

  /** The new stack: `h` on top of what stays of the old one. */
  lemma NewStack(recent: seq<string>, h: string, max: nat)
    requires Distinct(recent) && max > 0
    ensures var stack, stack' := Take(recent, max), Take([h] + Except(recent, h), max);
            if h in stack then stack' == [h] + Except(stack, h)
            else if |stack| < max then stack' == [h] + stack
            else stack' == [h] + stack[..|stack| - 1]
  {
    hide Except, Distinct;
    TakeCons(h, Except(recent, h), max);
    TakeExceptTake(recent, h, max);
    var stack := Take(recent, max);
    if h !in stack {
      var below := Take(recent, max - 1);
      assert below == if |stack| < max then stack else stack[..|stack| - 1];
      assert h !in below;
      TakeExceptTake(recent, h, max - 1);
      ExceptAbsent(below, h);
    }
  }

  lemma StackStep(cache: Cache, recent: seq<string>, max: nat, ttl: nat, h: string, data: Bytes, now: int, after: Cache)
    requires max > 0 && h != "" && "" !in cache && Distinct(recent)
    requires HoldsStack(cache, Take(recent, max), now)
    requires forall k :: k in cache ==> now <= cache[k].expiresAt
    requires Served(cache, max, ttl, h, data, now, after)
    ensures HoldsStack(after, Take([h] + Except(recent, h), max), now + 1)
  {
    hide Except, LeastRecent;
    var stack := Take(recent, max);
    assert forall x :: x in stack <==> x in Elements(stack);
    NewStack(recent, h, max);
    DistinctCardinality(stack);
    if h in cache {
      HitStep(cache, stack, h, now);
    } else {
      assert cache - {h} == cache;
      var room :| MadeRoom(cache, max, room) && after == room[h := Entry(data, now + ttl, now)];
      if |cache| == max {
        MissStep(cache, stack, max, room, now);
        PushTop(room, stack[..|stack| - 1], h, Entry(data, now + ttl, now), now);
      } else {
        PushTop(cache, stack, h, Entry(data, now + ttl, now), now);
      }
    }
  }

  lemma HitStep(cache: Cache, stack: seq<string>, h: string, now: int)
    requires HoldsStack(cache, stack, now) && h in cache
    ensures HoldsStack(cache[h := cache[h].(lastAccessed := now)], [h] + Except(stack, h), now + 1)
  {
    ExceptKeepsOrder(cache, stack, h);
    hide Except;
    var rest := Except(stack, h);
    assert forall x :: x in rest <==> x in Elements(rest);
    assert Ordered(cache - {h}, rest);
    assert HoldsStack(cache - {h}, rest, now);
    PushTop(cache - {h}, rest, h, cache[h].(lastAccessed := now), now);
    assert (cache - {h})[h := cache[h].(lastAccessed := now)] == cache[h := cache[h].(lastAccessed := now)];
  }

  lemma MissStep(cache: Cache, stack: seq<string>, max: nat, room: Cache, now: int)
    requires HoldsStack(cache, stack, now) && |cache| == |stack| == max > 0 && "" !in cache
    requires MadeRoom(cache, max, room)
    ensures HoldsStack(room, stack[..|stack| - 1], now)
  {
    HoldsPrefix(cache, stack, now);
  }

  lemma {:induction false} RecencyFacts(requests: seq<string>)
    ensures Distinct(Recency(requests)) && Elements(Recency(requests)) == Elements(requests)
  {
    if requests != [] {
      var init, h := requests[..|requests| - 1], requests[|requests| - 1];
      assert requests == init + [h];
      RecencyFacts(init);
      ExceptDistinct(Recency(init), h);
      var rest := Except(Recency(init), h);
      assert Elements([h] + rest) == {h} + Elements(rest);
      assert h !in rest by { assert h !in Elements(rest); }
    }
  }

  lemma AnsweredStep(steps: seq<Step>, i: nat)
    requires i < |steps|
    ensures Answered(steps[..i + 1]) ==
            Answered(steps[..i]) + if steps[i].Request? && steps[i].answer.Some? then [steps[i].chunkHash] else []
    ensures Answered(steps[..0]) == []
  {
    assert steps[..i + 1][..i] == steps[..i];
  }

  lemma RecencyStep(requests: seq<string>, h: string)
    ensures Recency(requests + [h]) == [h] + Except(Recency(requests), h)
  {
    assert (requests + [h])[..|requests|] == requests;
  }

  /** No entry has expired by the time of step `i`. */
  lemma NothingExpires(t: History, max: nat, ttl: nat, i: nat)
    requires Possible(t, max, ttl) && WithinTtl(t.steps, ttl) && i < |t.steps|
    ensures t.steps[i].Request? && forall k :: k in t.caches[i] ==> t.steps[i].now <= t.caches[i][k].expiresAt
  {
    hide StepOk;
    forall k | k in t.caches[i] ensures t.steps[i].now <= t.caches[i][k].expiresAt {
      EntriesHaveSource(t, max, ttl, i, k);
      var j: nat :| j < i && Source(t, ttl, j, k, t.caches[i][k]);
    }
  }

  lemma HoldsLater(cache: Cache, stack: seq<string>, bound: int, later: int)
    requires HoldsStack(cache, stack, bound) && bound <= later
    ensures HoldsStack(cache, stack, later)
  {
  }

  /** One request, answered or not. */
  lemma RequestStep(t: History, max: nat, ttl: nat, i: nat, recent: seq<string>)
    requires Possible(t, max, ttl) && WithinTtl(t.steps, ttl) && max > 0 && i < |t.steps| && Distinct(recent)
    requires t.steps[i].Request? && HoldsStack(t.caches[i], Take(recent, max), t.steps[i].now)
    ensures var Request(h, now, answer) := t.steps[i];
            HoldsStack(t.caches[i + 1], Take(if answer.Some? then [h] + Except(recent, h) else recent, max), now + 1)
  {
    hide HoldsStack, Except, Distinct, Served;
    var Request(h, now, answer) := t.steps[i];
    var cache, after := t.caches[i], t.caches[i + 1];
    assert StepOk(cache, t.nodes[i], t.steps[i], after, max, ttl);
    CapacityIsKept(t, max, ttl, i);
    NothingExpires(t, max, ttl, i);
    if answer.Some? {
      if !Live(cache, h, now) { ValidHashNotEmpty(t.nodes[i], h); }
      StackStep(cache, recent, max, ttl, h, answer.value, now, after);
    } else {
      assert after == cache;
      HoldsLater(cache, Take(recent, max), now, now + 1);
    }
  }

  lemma EmptyHolds(bound: int)
    ensures HoldsStack(map[], [], bound)
  {
  }

  lemma {:induction false} HistoryHolds(t: History, max: nat, ttl: nat, i: nat, bound: int)
    requires Possible(t, max, ttl) && WithinTtl(t.steps, ttl) && max > 0 && i <= |t.steps|
    requires forall j :: 0 <= j < i ==> t.steps[j].now < bound
    ensures HoldsStack(t.caches[i], Take(Recency(Answered(t.steps[..i])), max), bound)
  {
    hide StepOk, HoldsStack, Recency, Answered, Except, Distinct;
    if i == 0 {
      NothingAnswered();
      EmptyHolds(bound);
    } else {
      var recent := Recency(Answered(t.steps[..i - 1]));
      HistoryHolds(t, max, ttl, i - 1, t.steps[i - 1].now);
      RecencyFacts(Answered(t.steps[..i - 1]));
      RequestStep(t, max, ttl, i - 1, recent);
      AnsweredStep(t.steps, i - 1);
      RecencyStep(Answered(t.steps[..i - 1]), t.steps[i - 1].chunkHash);
      assert Answered(t.steps[..i - 1]) + [] == Answered(t.steps[..i - 1]);
      HoldsLater(t.caches[i], Take(Recency(Answered(t.steps[..i])), max), t.steps[i - 1].now + 1, bound);
    }
  }

  lemma NothingAnswered()
    ensures Recency(Answered([])) == []
  {
  }

  /**
   * The LRU stack theorem: at every point of such a run the cache holds exactly the `max` most
   * recently answered distinct hashes (all of them while there are fewer).
   */
  lemma CacheHoldsMostRecent(t: History, max: nat, ttl: nat, i: nat)
    requires Possible(t, max, ttl) && WithinTtl(t.steps, ttl) && max > 0 && i <= |t.steps|
    ensures t.caches[i].Keys == Elements(Take(Recency(Answered(t.steps[..i])), max))
  {
    hide StepOk, Recency, Answered;
    HistoryHolds(t, max, ttl, i, if i == 0 then 0 else t.steps[i - 1].now + 1);
  }

  /**
   * In the runs of the stack theorem, in terms of recency: a request is answered as if there
   * were no cache exactly when its hash is not among the most recently answered ones, or what was
   * last fetched of it is what the origin has now.
   */
  lemma RecentAnswerIsExactIff(t: History, max: nat, ttl: nat, i: nat)
    requires Possible(t, max, ttl) && WithinTtl(t.steps, ttl) && max > 0 && i < |t.steps|
    ensures var Request(h, now, answer) := t.steps[i];
            answer == Origin(t.nodes[i], h) <==>
            h !in Take(Recency(Answered(t.steps[..i])), max) || FetchedIsCurrent(t, i, h)
  {
    hide Origin, StepOk, Recency, Answered, Take, FetchedIsCurrent;
    NothingExpires(t, max, ttl, i);
    AnswerIsExactIff(t, max, ttl, i);
    CacheHoldsMostRecent(t, max, ttl, i);
    var Request(h, _, _) := t.steps[i];
    assert h in t.caches[i].Keys <==> h in Elements(Take(Recency(Answered(t.steps[..i])), max));
  }

  /** Requesting `h` can only push one hash out of the top `max`: the last. */
  lemma PushedOut(recent: seq<string>, h: string, max: nat, k: string)
    requires Distinct(recent) && max > 0
    requires k in Take(recent, max) && k !in Take([h] + Except(recent, h), max)
    ensures |recent| >= max && k == recent[max - 1]
  {
    hide Except, Distinct;
    NewStack(recent, h, max);
    var stack := Take(recent, max);
    ExceptMember(stack, h, k);
    if h !in stack && |stack| >= max {
      assert stack == stack[..|stack| - 1] + [stack[|stack| - 1]];
    }
  }

  /** When a miss evicts, it evicts the least recently answered of the hashes held. */
  lemma EvictsLeastRecentlyRequested(t: History, max: nat, ttl: nat, i: nat, k: string)
    requires Possible(t, max, ttl) && WithinTtl(t.steps, ttl) && max > 0 && i < |t.steps|
    requires k in t.caches[i] && k !in t.caches[i + 1]
    ensures var recent := Recency(Answered(t.steps[..i])); |recent| >= max && k == recent[max - 1]
  {
    hide StepOk, Recency, Answered, Except, Distinct, Take;
    CacheHoldsMostRecent(t, max, ttl, i);
    CacheHoldsMostRecent(t, max, ttl, i + 1);
    var answered, step := Answered(t.steps[..i]), t.steps[i];
    RecencyFacts(answered);
    AnsweredStep(t.steps, i);
    RecencyStep(answered, step.chunkHash);
    assert answered + [] == answered;
    var stack, stack' := Take(Recency(answered), max), Take(Recency(Answered(t.steps[..i + 1])), max);
    assert k in Elements(stack) && k !in Elements(stack');
    PushedOut(Recency(answered), step.chunkHash, max, k);
  }
}
