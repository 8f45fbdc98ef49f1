/**
 * Permission checks behind a time-limited cache (src/access-control.ts:28-159,
 * src/metadata-store.ts:443-481, docker/init-db.sql:104-112).
 */
module AccessControl {

  datatype Operation = READ | WRITE | DELETE | SHARE

  datatype Permission = Read | Write | Delete

  datatype CachedResult = CachedResult(result: bool, expiresAt: int)

  datatype Grantee = Grantee(fileId: string, userId: string)

  type Owners = map<string, string>
  type Permissions = map<Grantee, Permission>
  type PermissionCache = map<string, CachedResult>

  datatype State = State(owners: Owners, permissions: Permissions, cache: PermissionCache)

  const CACHE_TTL_MS := 5 * 60 * 1000

  function OperationName(op: Operation): string {
    match op case READ => "read" case WRITE => "write" case DELETE => "delete" case SHARE => "share"
  }

  function OperationToPermission(op: Operation): Permission {
    match op case READ => Read case WRITE => Write case DELETE => Delete case SHARE => Write
  }

  function CacheKey(userId: string, fileId: string, op: Operation): string {
    userId + ":" + fileId + ":" + OperationName(op)
  }

  /** The check without the cache. */
  function Evaluate(s: State, userId: string, fileId: string, op: Operation): bool {
    && fileId in s.owners
    && (s.owners[fileId] == userId
        || (Grantee(fileId, userId) in s.permissions
            && s.permissions[Grantee(fileId, userId)] == OperationToPermission(op)))
  }

  // ---------- keys ----------

  ghost predicate NoColon(s: string) { ':' !in s }

  lemma OperationNames(op: Operation, op': Operation)
    ensures NoColon(OperationName(op))
    ensures OperationName(op) == OperationName(op') ==> op == op'
  {
    var a, b := OperationName(op), OperationName(op');
    if a == b { assert a[0] == b[0]; }
  }

  /** Two strings cut at a colon after which none follows are cut at the same place. */
  lemma LastColonUnique(a: string, x: string, b: string, y: string)
    requires NoColon(x) && NoColon(y) && a + ":" + x == b + ":" + y
    ensures a == b && x == y
  {
    var s := a + ":" + x;
    assert s[|a|] == ':' && s[|b|] == ':';
    forall k | |a| < k < |s| ensures s[k] != ':' { assert s[k] == x[k - |a| - 1]; }
    forall k | |b| < k < |s| ensures s[k] != ':' { assert s[k] == y[k - |b| - 1]; }
    assert |a| == |b|;
    assert s[..|a|] == a && s[..|b|] == b;
    assert s[|a| + 1..] == x && s[|b| + 1..] == y;
  }

  /** Keys agree exactly when the operations do and user and file join to the same text. */
  lemma KeysAgreeIff(u: string, f: string, op: Operation, u': string, f': string, op': Operation)
    ensures CacheKey(u, f, op) == CacheKey(u', f', op') <==> op == op' && u + ":" + f == u' + ":" + f'
  {
    OperationNames(op, op');
    OperationNames(op', op);
    if CacheKey(u, f, op) == CacheKey(u', f', op') {
      LastColonUnique(u + ":" + f, OperationName(op), u' + ":" + f', OperationName(op'));
    }
  }

  lemma KeyInjective(u: string, f: string, op: Operation, u': string, f': string, op': Operation)
    requires NoColon(f) && NoColon(f') && CacheKey(u, f, op) == CacheKey(u', f', op')
    ensures u == u' && f == f' && op == op'
  {
    KeysAgreeIff(u, f, op, u', f', op');
    LastColonUnique(u, f, u', f');
  }

  /** With colons in file ids two different questions can share a key. */
  lemma ColonsCollide(op: Operation)
    ensures CacheKey("a:b", "c", op) == CacheKey("a", "b:c", op)
  {
    assert "a:b" + ":" + "c" == "a" + ":" + "b:c";
  }

  // ---------- steps ----------

  datatype Event =
    | Check(userId: string, fileId: string, op: Operation)
    | Grant(ownerId: string, fileId: string, target: string, permission: Permission)
    | Revoke(ownerId: string, fileId: string, target: string)
    | CreateFile(fileId: string, ownerId: string)
    | DeleteFile(fileId: string)

  datatype Timed = Timed(event: Event, now: int)

  predicate Hit(cache: PermissionCache, key: string, now: int) {
    key in cache && now < cache[key].expiresAt
  }

  /** What a check answers. */
  function Answer(s: State, userId: string, fileId: string, op: Operation, now: int): bool {
    var key := CacheKey(userId, fileId, op);
    if Hit(s.cache, key, now) then s.cache[key].result else Evaluate(s, userId, fileId, op)
  }

  function AfterCheck(s: State, userId: string, fileId: string, op: Operation, now: int): State {
    var key := CacheKey(userId, fileId, op);
    if Hit(s.cache, key, now) then s
    else s.(cache := s.cache[key := CachedResult(Evaluate(s, userId, fileId, op), now + CACHE_TTL_MS)])
  }

  /** Forgets all four operations of one user on one file. */
  function Invalidated(cache: PermissionCache, userId: string, fileId: string): PermissionCache {
    cache - {CacheKey(userId, fileId, READ)} - {CacheKey(userId, fileId, WRITE)}
          - {CacheKey(userId, fileId, DELETE)} - {CacheKey(userId, fileId, SHARE)}
  }

  predicate IsOwner(s: State, ownerId: string, fileId: string) {
    fileId in s.owners && s.owners[fileId] == ownerId
  }

  function Next(s: State, e: Timed): State {
    match e.event
    case Check(u, f, op) => AfterCheck(s, u, f, op, e.now)
    case Grant(owner, f, target, permission) =>
      if !IsOwner(s, owner, f) then s
      else s.(permissions := s.permissions[Grantee(f, target) := permission], cache := Invalidated(s.cache, target, f))
    case Revoke(owner, f, target) =>
      if !IsOwner(s, owner, f) then s
      else s.(permissions := s.permissions - {Grantee(f, target)}, cache := Invalidated(s.cache, target, f))
    case CreateFile(f, owner) => if f in s.owners then s else s.(owners := s.owners[f := owner])
    case DeleteFile(f) =>
      s.(owners := s.owners - {f}, permissions := map g | g in s.permissions && g.fileId != f :: s.permissions[g])
  }

  function Run(s: State, events: seq<Timed>): State {
    if events == [] then s else Next(Run(s, events[..|events| - 1]), events[|events| - 1])
  }

  // ---------- fixed files: the cache is invisible ----------

  /** Every cached answer is what the check would say now. */
  ghost predicate Agrees(s: State) {
    forall u, f, op :: NoColon(f) && CacheKey(u, f, op) in s.cache ==>
      s.cache[CacheKey(u, f, op)].result == Evaluate(s, u, f, op)
  }

  function FileOf(e: Event): string {
    e.fileId
  }

  /** File ids are UUIDs: no colon in them. */
  ghost predicate WellNamed(events: seq<Timed>) {
    forall i :: 0 <= i < |events| ==> NoColon(FileOf(events[i].event))
  }

  ghost predicate FilesFixed(events: seq<Timed>) {
    forall i :: 0 <= i < |events| ==> !events[i].event.CreateFile? && !events[i].event.DeleteFile?
  }

  lemma InvalidatedKeys(cache: PermissionCache, u: string, f: string)
    ensures forall k :: k in Invalidated(cache, u, f) <==> k in cache && forall op: Operation :: k != CacheKey(u, f, op)
    ensures forall k :: k in Invalidated(cache, u, f) ==> Invalidated(cache, u, f)[k] == cache[k]
  {
    hide CacheKey;
    forall k ensures k in Invalidated(cache, u, f) <==> k in cache && forall op: Operation :: k != CacheKey(u, f, op) {
      if k in Invalidated(cache, u, f) {
        forall op: Operation ensures k != CacheKey(u, f, op) {
          match op { case READ => case WRITE => case DELETE => case SHARE => }
        }
      } else if k in cache {
        assert || k == CacheKey(u, f, READ) || k == CacheKey(u, f, WRITE)
               || k == CacheKey(u, f, DELETE) || k == CacheKey(u, f, SHARE);
      }
    }
  }

  /** A change to one user's permission on one file, with its cache entries forgotten. */
  lemma InvalidationAgrees(s: State, s': State, f: string, target: string)
    requires Agrees(s) && NoColon(f)
    requires s'.owners == s.owners && s'.cache == Invalidated(s.cache, target, f)
    requires forall g :: g != Grantee(f, target) ==> (g in s.permissions <==> g in s'.permissions)
    requires forall g :: g != Grantee(f, target) && g in s.permissions ==> s.permissions[g] == s'.permissions[g]
    ensures Agrees(s')
  {
    hide CacheKey, Invalidated;
    InvalidatedKeys(s.cache, target, f);
    forall u, g, op | NoColon(g) && CacheKey(u, g, op) in s'.cache
      ensures s'.cache[CacheKey(u, g, op)].result == Evaluate(s', u, g, op)
    {
      assert CacheKey(u, g, op) != CacheKey(target, f, op);
      assert Grantee(g, u) != Grantee(f, target);
    }
  }

  lemma CheckAgrees(s: State, u: string, f: string, op: Operation, now: int)
    requires Agrees(s) && NoColon(f)
    ensures Agrees(AfterCheck(s, u, f, op, now))
    ensures Answer(s, u, f, op, now) == Evaluate(s, u, f, op)
  {
    hide CacheKey;
    var s' := AfterCheck(s, u, f, op, now);
    forall v, g, o | NoColon(g) && CacheKey(v, g, o) in s'.cache
      ensures s'.cache[CacheKey(v, g, o)].result == Evaluate(s', v, g, o)
    {
      if CacheKey(v, g, o) == CacheKey(u, f, op) {
        KeyInjective(v, g, o, u, f, op);
      }
    }
  }

  lemma StepAgrees(s: State, e: Timed)
    requires Agrees(s) && NoColon(FileOf(e.event)) && !e.event.CreateFile? && !e.event.DeleteFile?
    ensures Agrees(Next(s, e))
  {
    hide Agrees, CacheKey, Invalidated, AfterCheck;
    match e.event
    case Check(u, f, op) => CheckAgrees(s, u, f, op, e.now);
    case Grant(owner, f, target, permission) =>
      if IsOwner(s, owner, f) { InvalidationAgrees(s, Next(s, e), f, target); }
    case Revoke(owner, f, target) =>
      if IsOwner(s, owner, f) { InvalidationAgrees(s, Next(s, e), f, target); }
  }

  lemma {:induction false} RunAgrees(s: State, events: seq<Timed>)
    requires s.cache == map[] && WellNamed(events) && FilesFixed(events)
    ensures Agrees(Run(s, events))
  {
    hide Next, Agrees;
    if events == [] {
      EmptyCacheAgrees(s);
    } else {
      RunAgrees(s, events[..|events| - 1]);
      StepAgrees(Run(s, events[..|events| - 1]), events[|events| - 1]);
    }
  }

  lemma EmptyCacheAgrees(s: State)
    requires s.cache == map[]
    ensures Agrees(s)
  {
  }

  /** In every run of checks, grants and revocations each check answers as if there were no cache. */
  lemma ChecksAreUncached(s: State, events: seq<Timed>, u: string, f: string, op: Operation, now: int)
    requires s.cache == map[] && WellNamed(events) && FilesFixed(events) && NoColon(f)
    ensures Answer(Run(s, events), u, f, op, now) == Evaluate(Run(s, events), u, f, op)
  {
    hide Run, Agrees, Answer, Evaluate;
    RunAgrees(s, events);
    CheckAgrees(Run(s, events), u, f, op, now);
  }

  // ---------- files coming and going: answers are at most one TTL old ----------

  /** Step `i` was an uncached evaluation of this question, and the cached entry is its answer. */
  ghost predicate Witness(s: State, events: seq<Timed>, i: nat, u: string, f: string, op: Operation,
                          entry: CachedResult)
    requires i < |events|
  {
    && entry.expiresAt == events[i].now + CACHE_TTL_MS
    && entry.result == Evaluate(Run(s, events[..i]), u, f, op)
  }

  ghost predicate Justified(s: State, events: seq<Timed>) {
    forall u, f, op :: NoColon(f) && CacheKey(u, f, op) in Run(s, events).cache ==>
      exists i: nat | i < |events| :: Witness(s, events, i, u, f, op, Run(s, events).cache[CacheKey(u, f, op)])
  }

  lemma WitnessExtends(s: State, events: seq<Timed>, e: Timed, i: nat, u: string, f: string, op: Operation,
                       entry: CachedResult)
    requires i < |events| && Witness(s, events, i, u, f, op, entry)
    ensures Witness(s, events + [e], i, u, f, op, entry)
  {
    assert (events + [e])[..i] == events[..i];
  }

  /** Where an entry of the next cache comes from. */
  lemma EntryOrigin(s: State, e: Timed, key: string)
    requires key in Next(s, e).cache
    ensures (key in s.cache && Next(s, e).cache[key] == s.cache[key])
            || (e.event.Check? && key == CacheKey(e.event.userId, e.event.fileId, e.event.op) &&
                Next(s, e).cache[key] ==
                  CachedResult(Evaluate(s, e.event.userId, e.event.fileId, e.event.op), e.now + CACHE_TTL_MS))
  {
    hide CacheKey, Invalidated;
    match e.event
    case Grant(_, f, target, _) => InvalidatedKeys(s.cache, target, f);
    case Revoke(_, f, target) => InvalidatedKeys(s.cache, target, f);
    case _ =>
  }

  lemma {:induction false} RunJustified(s: State, events: seq<Timed>)
    requires s.cache == map[] && WellNamed(events)
    ensures Justified(s, events)
  {
    hide CacheKey, Next, Evaluate;
    if events != [] {
      var n := |events| - 1;
      var before, e := events[..n], events[n];
      RunJustified(s, before);
      assert events == before + [e];
      forall u, f, op | NoColon(f) && CacheKey(u, f, op) in Run(s, events).cache
        ensures exists i: nat | i < |events| ::
                  Witness(s, events, i, u, f, op, Run(s, events).cache[CacheKey(u, f, op)])
      {
        var key := CacheKey(u, f, op);
        var entry := Run(s, events).cache[key];
        EntryOrigin(Run(s, before), e, key);
        if key in Run(s, before).cache && entry == Run(s, before).cache[key] {
          var i: nat :| i < |before| && Witness(s, before, i, u, f, op, entry);
          WitnessExtends(s, before, e, i, u, f, op, entry);
        } else {
          assert NoColon(FileOf(e.event));
          KeyInjective(u, f, op, e.event.userId, e.event.fileId, e.event.op);
          assert Witness(s, events, n, u, f, op, entry);
        }
      }
    }
  }

  ghost predicate ClockRuns(events: seq<Timed>, now: int) {
    && (forall i, j :: 0 <= i < j < |events| ==> events[i].now <= events[j].now)
    && (forall i :: 0 <= i < |events| ==> events[i].now <= now)
  }

  /**
   * In every run, files created and deleted included: an answer given at `now` is the uncached
   * answer in the present state, or in the state at some earlier step less than one TTL ago.
   */
  lemma AnswersAreRecent(s: State, events: seq<Timed>, u: string, f: string, op: Operation, now: int)
    requires s.cache == map[] && WellNamed(events) && ClockRuns(events, now) && NoColon(f)
    ensures var answer := Answer(Run(s, events), u, f, op, now);
            || answer == Evaluate(Run(s, events), u, f, op)
            || exists i: nat | i < |events| ::
                 now - CACHE_TTL_MS < events[i].now <= now && answer == Evaluate(Run(s, events[..i]), u, f, op)
  {
    hide Run, Evaluate, CacheKey;
    RunJustified(s, events);
    var t := Run(s, events);
    if Hit(t.cache, CacheKey(u, f, op), now) {
      var i: nat :| i < |events| && Witness(s, events, i, u, f, op, t.cache[CacheKey(u, f, op)]);
      assert events[i].now <= now;
    }
  }

  // ---------- the object ----------

  datatype AccessResult = Done | FileNotFound | NotOwner

  class Control {
    var owners: Owners                // the file rows
    var permissions: Permissions      // the permission rows
    var permissionCache: PermissionCache

    ghost function Contents(): State
      reads this
    {
      State(owners, permissions, permissionCache)
    }

    constructor (owners: Owners, permissions: Permissions)
      ensures Contents() == State(owners, permissions, map[])
    {
      this.owners, this.permissions, this.permissionCache := owners, permissions, map[];
    }

    method CheckPermission(userId: string, fileId: string, operation: Operation, now: int) returns (allowed: bool)
      modifies this`permissionCache
      ensures allowed == Answer(old(Contents()), userId, fileId, operation, now)
      ensures Contents() == Next(old(Contents()), Timed(Check(userId, fileId, operation), now))
      // Written out: without a live entry the owner may do everything and others what their one row says.
      ensures var key := CacheKey(userId, fileId, operation);
              if key in old(permissionCache) && now < old(permissionCache)[key].expiresAt then
                allowed == old(permissionCache)[key].result && permissionCache == old(permissionCache)
              else
                && permissionCache == old(permissionCache)[key := CachedResult(allowed, now + 300000)]
                && (fileId !in owners ==> !allowed)
                && (fileId in owners && owners[fileId] == userId ==> allowed)
                && (fileId in owners && owners[fileId] != userId ==>
                    (allowed <==>
                     && Grantee(fileId, userId) in permissions
                     && match operation
                        case READ => permissions[Grantee(fileId, userId)] == Read
                        case WRITE => permissions[Grantee(fileId, userId)] == Write
                        case SHARE => permissions[Grantee(fileId, userId)] == Write
                        case DELETE => permissions[Grantee(fileId, userId)] == Delete))
    {
      hide CacheKey;
      var cacheKey := CacheKey(userId, fileId, operation);
      if cacheKey in permissionCache && now < permissionCache[cacheKey].expiresAt {
        return permissionCache[cacheKey].result;
      }
      if fileId !in owners {
        permissionCache := permissionCache[cacheKey := CachedResult(false, now + CACHE_TTL_MS)];
        return false;
      }
      if owners[fileId] == userId {
        permissionCache := permissionCache[cacheKey := CachedResult(true, now + CACHE_TTL_MS)];
        return true;
      }
      var row := Grantee(fileId, userId);
      allowed := row in permissions && permissions[row] == OperationToPermission(operation);
      permissionCache := permissionCache[cacheKey := CachedResult(allowed, now + CACHE_TTL_MS)];
    }

    method InvalidateCacheForUser(userId: string, fileId: string)
      modifies this`permissionCache
      ensures permissionCache == Invalidated(old(permissionCache), userId, fileId)
    {
      hide CacheKey;
      var operations := [READ, WRITE, DELETE, SHARE];
      ghost var before := permissionCache;
      var i := 0;
      while i < |operations|
        invariant 0 <= i <= 4
        invariant i == 0 ==> permissionCache == before
        invariant i == 1 ==> permissionCache == before - {CacheKey(userId, fileId, READ)}
        invariant i == 2 ==>
                    permissionCache == before - {CacheKey(userId, fileId, READ)} - {CacheKey(userId, fileId, WRITE)}
        invariant i == 3 ==>
                    permissionCache == before - {CacheKey(userId, fileId, READ)} - {CacheKey(userId, fileId, WRITE)}
                                                       - {CacheKey(userId, fileId, DELETE)}
        invariant i == 4 ==> permissionCache == Invalidated(before, userId, fileId)
      {
        permissionCache := permissionCache - {CacheKey(userId, fileId, operations[i])};
        i := i + 1;
      }
    }

    method GrantPermission(ownerId: string, fileId: string, targetUserId: string, permission: Permission, now: int)
      returns (r: AccessResult)
      modifies this
      ensures r == if fileId !in old(owners) then FileNotFound
                   else if old(owners)[fileId] != ownerId then NotOwner
                   else Done
      ensures Contents() == Next(old(Contents()), Timed(Grant(ownerId, fileId, targetUserId, permission), now))
      // Written out.
      ensures owners == old(owners)
      ensures permissions == if r == Done then old(permissions)[Grantee(fileId, targetUserId) := permission]
                             else old(permissions)
      ensures r == Done ==>
                && (forall k :: k in permissionCache <==>
                      k in old(permissionCache) && forall op: Operation :: k != CacheKey(targetUserId, fileId, op))
                && (forall k :: k in permissionCache ==> permissionCache[k] == old(permissionCache)[k])
      ensures r != Done ==> permissionCache == old(permissionCache)
    {
      InvalidatedKeys(permissionCache, targetUserId, fileId);
      hide CacheKey, Invalidated;
      if fileId !in owners {
        return FileNotFound;
      }
      if owners[fileId] != ownerId {
        return NotOwner;
      }
      permissions := permissions[Grantee(fileId, targetUserId) := permission];
      InvalidateCacheForUser(targetUserId, fileId);
      return Done;
    }

    method RevokePermission(ownerId: string, fileId: string, targetUserId: string, now: int) returns (r: AccessResult)
      modifies this
      ensures r == if fileId !in old(owners) then FileNotFound
                   else if old(owners)[fileId] != ownerId then NotOwner
                   else Done
      ensures Contents() == Next(old(Contents()), Timed(Revoke(ownerId, fileId, targetUserId), now))
      // Written out.
      ensures owners == old(owners)
      ensures permissions == if r == Done then old(permissions) - {Grantee(fileId, targetUserId)} else old(permissions)
      ensures r == Done ==>
                && (forall k :: k in permissionCache <==>
                      k in old(permissionCache) && forall op: Operation :: k != CacheKey(targetUserId, fileId, op))
                && (forall k :: k in permissionCache ==> permissionCache[k] == old(permissionCache)[k])
      ensures r != Done ==> permissionCache == old(permissionCache)
    {
      InvalidatedKeys(permissionCache, targetUserId, fileId);
      hide CacheKey, Invalidated;
      if fileId !in owners {
        return FileNotFound;
      }
      if owners[fileId] != ownerId {
        return NotOwner;
      }
      permissions := permissions - {Grantee(fileId, targetUserId)};
      InvalidateCacheForUser(targetUserId, fileId);
      return Done;
    }
  }

  /** After a grant takes effect the target is allowed exactly the matching operations, at once. */
  lemma GrantWorks(s: State, owner: string, f: string, target: string, permission: Permission, now: int, op: Operation,
                   later: int)
    requires IsOwner(s, owner, f) && target != owner
    ensures Answer(Next(s, Timed(Grant(owner, f, target, permission), now)), target, f, op, later) <==>
            OperationToPermission(op) == permission
  {
    hide CacheKey;
    InvalidatedKeys(s.cache, target, f);
  }

  /** A file that is deleted takes its permissions with it: a new file of that id is its owner's alone. */
  lemma DeletionForgetsPermissions(s: State, f: string, owner: string, now: int, u: string, op: Operation)
    ensures var deleted := Next(s, Timed(DeleteFile(f), now));
            && !Evaluate(deleted, u, f, op)
            && (Evaluate(Next(deleted, Timed(CreateFile(f, owner), now)), u, f, op) <==> u == owner)
  {
  }

  /** After a revocation a user who is not the owner is denied everything, at once. */
  lemma RevokeWorks(s: State, owner: string, f: string, target: string, now: int, op: Operation, later: int)
    requires IsOwner(s, owner, f) && target != owner
    ensures !Answer(Next(s, Timed(Revoke(owner, f, target), now)), target, f, op, later)
  {
    hide CacheKey;
    InvalidatedKeys(s.cache, target, f);
  }
}
