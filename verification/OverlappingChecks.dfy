/**
 * Permission checks that overlap with grants and revocations: a check reads the rows first and caches
 * its answer later, a change writes the row first and forgets the cached answers later
 * (src/access-control.ts:28-111, 133-159).
 */
module OverlappingChecks {
  import opened Common
  import opened AccessControl

  datatype Question = Question(userId: string, fileId: string, op: Operation)

  /** A check that has missed the cache and read the rows. */
  datatype Asked = Asked(question: Question, result: bool)

  /** `changing` holds the calls that have changed a row and not yet forgotten the cached answers. */
  datatype World = World(state: State, asked: map<nat, Asked>, changing: map<nat, Grantee>)

  /** Calls go by a name of their own; a change without a permission is a revocation. */
  datatype Move =
    | Ask(call: nat, question: Question, now: int)
    | Finish(call: nat, now: int)
    | ChangeRow(call: nat, grantee: Grantee, permission: Option<Permission>)
    | Forget(call: nat)

  function Key(q: Question): string {
    CacheKey(q.userId, q.fileId, q.op)
  }

  function Truth(s: State, q: Question): bool {
    Evaluate(s, q.userId, q.fileId, q.op)
  }

  function Advance(w: World, m: Move): World {
    match m
    case Ask(c, q, now) =>
      if c in w.asked || Hit(w.state.cache, Key(q), now) then w
      else w.(asked := w.asked[c := Asked(q, Truth(w.state, q))])
    case Finish(c, now) =>
      if c !in w.asked then w else
        var a := w.asked[c];
        var entry := CachedResult(a.result, now + CACHE_TTL_MS);
        w.(state := w.state.(cache := w.state.cache[Key(a.question) := entry]), asked := w.asked - {c})
    case ChangeRow(c, g, permission) =>
      if c in w.changing then w else
        var rows := if permission.Some? then w.state.permissions[g := permission.value] else w.state.permissions - {g};
        w.(state := w.state.(permissions := rows), changing := w.changing[c := g])
    case Forget(c) =>
      if c !in w.changing then w else
        var g := w.changing[c];
        w.(state := w.state.(cache := Invalidated(w.state.cache, g.userId, g.fileId)), changing := w.changing - {c})
  }

  function Play(s: State, moves: seq<Move>): World {
    if moves == [] then World(s, map[], map[]) else Advance(Play(s, moves[..|moves| - 1]), moves[|moves| - 1])
  }

  /** A check with nothing in between is the check that runs as one step. */
  lemma CheckAlone(w: World, c: nat, q: Question, now: int)
    requires c !in w.asked
    ensures Advance(Advance(w, Ask(c, q, now)), Finish(c, now)) ==
            w.(state := AccessControl.Next(w.state, Timed(Check(q.userId, q.fileId, q.op), now)))
  {
    hide CacheKey, Evaluate;
    if !Hit(w.state.cache, Key(q), now) {
      assert w.asked[c := Asked(q, Truth(w.state, q))] - {c} == w.asked;
    }
  }

  /** So is a grant or revocation by the owner. */
  lemma ChangeAlone(w: World, c: nat, owner: string, g: Grantee, permission: Option<Permission>, now: int)
    requires c !in w.changing && IsOwner(w.state, owner, g.fileId)
    ensures var event := if permission.Some? then Grant(owner, g.fileId, g.userId, permission.value)
                         else Revoke(owner, g.fileId, g.userId);
            Advance(Advance(w, ChangeRow(c, g, permission)), Forget(c)) ==
            w.(state := AccessControl.Next(w.state, Timed(event, now)))
  {
    hide CacheKey, Invalidated;
    assert w.changing[c := g] - {c} == w.changing;
  }

  lemma PlayStep(s: State, moves: seq<Move>, i: nat)
    requires i < |moves|
    ensures Play(s, moves[..i + 1]) == Advance(Play(s, moves[..i]), moves[i])
  {
    assert moves[..i + 1][..i] == moves[..i];
  }

  /** File ids are UUIDs: no colon in them. */
  ghost predicate WellNamed(moves: seq<Move>) {
    forall i :: 0 <= i < |moves| && moves[i].Ask? ==> NoColon(moves[i].question.fileId)
  }

  /** Some call has changed this user's permission on the file and not yet forgotten the cached answers. */
  ghost predicate Changing(w: World, q: Question) {
    exists c :: c in w.changing && w.changing[c] == Grantee(q.fileId, q.userId)
  }

  /** The check answered at `i` what it read there. */
  ghost predicate ReadAt(s: State, moves: seq<Move>, i: nat, c: nat, a: Asked)
    requires i < |moves|
  {
    && moves[i].Ask? && moves[i].call == c && moves[i].question == a.question
    && a.result == Truth(Play(s, moves[..i]).state, a.question)
  }

  /** Every check in flight holds what the rows said when it read them. */
  lemma {:induction false} AskedWasTrue(s: State, moves: seq<Move>, n: nat, c: nat)
    requires n <= |moves| && c in Play(s, moves[..n]).asked
    ensures exists i: nat | i < n :: ReadAt(s, moves, i, c, Play(s, moves[..n]).asked[c])
  {
    hide Evaluate, CacheKey, Invalidated;
    if n > 0 {
      PlayStep(s, moves, n - 1);
      var w, m := Play(s, moves[..n - 1]), moves[n - 1];
      if c in w.asked {
        AskedWasTrue(s, moves, n - 1, c);
      } else {
        assert ReadAt(s, moves, n - 1, c, Play(s, moves[..n]).asked[c]);
      }
    }
  }

  // ---------- where a cached answer comes from ----------

  /** Move `j` caches an answer to `q`. */
  ghost predicate CachesAt(s: State, moves: seq<Move>, j: nat, q: Question)
    requires j < |moves|
  {
    var w := Play(s, moves[..j]);
    moves[j].Finish? && moves[j].call in w.asked && w.asked[moves[j].call].question == q
  }

  /**
   * The entry for `q` was read at `i` and cached at `j`, the last time `q` was; and unless a change
   * for its user and file is under way, the rows say now what they said when it was cached.
   */
  ghost predicate Origin(s: State, moves: seq<Move>, n: nat, q: Question, entry: CachedResult, i: nat, j: nat)
    requires n <= |moves|
  {
    && i < j < n && CachesAt(s, moves, j, q) && (forall k: nat :: j < k < n ==> !CachesAt(s, moves, k, q))
    && ReadAt(s, moves, i, moves[j].call, Asked(q, entry.result))
    && entry.expiresAt == moves[j].now + CACHE_TTL_MS
    && (!Changing(Play(s, moves[..n]), q) ==>
          Truth(Play(s, moves[..j]).state, q) == Truth(Play(s, moves[..n]).state, q))
  }

  /** A move that leaves `q` free of changes leaves its answer, or forgets its entry. */
  lemma TruthStep(w: World, m: Move, q: Question)
    requires !Changing(Advance(w, m), q) && Key(q) in Advance(w, m).state.cache
    ensures !Changing(w, q) && Truth(Advance(w, m).state, q) == Truth(w.state, q)
  {
    hide CacheKey;
    var w' := Advance(w, m);
    match m
    case ChangeRow(c, g, _) =>
      if c !in w.changing {
        assert w'.changing[c] == g;
        assert g != Grantee(q.fileId, q.userId);
        assert forall d :: d in w.changing ==> d in w'.changing && w'.changing[d] == w.changing[d];
      }
    case Forget(c) =>
      if c in w.changing {
        InvalidatedKeys(w.state.cache, w.changing[c].userId, w.changing[c].fileId);
        assert w.changing[c] != Grantee(q.fileId, q.userId);
        forall d | d in w.changing ensures w.changing[d] != Grantee(q.fileId, q.userId) {
          if d != c { assert d in w'.changing && w'.changing[d] == w.changing[d]; }
        }
      }
    case _ =>
  }

  /** What a move leaves of an entry, or where the entry comes from. */
  lemma EntryStep(w: World, m: Move, key: string)
    requires key in Advance(w, m).state.cache
    ensures || (key in w.state.cache && Advance(w, m).state.cache[key] == w.state.cache[key])
            || (m.Finish? && m.call in w.asked && key == Key(w.asked[m.call].question) &&
                Advance(w, m).state.cache[key] == CachedResult(w.asked[m.call].result, m.now + CACHE_TTL_MS))
  {
    hide CacheKey, Invalidated;
    if m.Forget? && m.call in w.changing {
      InvalidatedKeys(w.state.cache, w.changing[m.call].userId, w.changing[m.call].fileId);
    }
  }

  lemma {:induction false} EntriesHaveOrigin(s: State, moves: seq<Move>, n: nat, q: Question)
    requires s.cache == map[] && WellNamed(moves) && NoColon(q.fileId) && n <= |moves|
    requires Key(q) in Play(s, moves[..n]).state.cache
    ensures exists i: nat, j: nat :: Origin(s, moves, n, q, Play(s, moves[..n]).state.cache[Key(q)], i, j)
  {
    hide CacheKey, Evaluate, Invalidated, Advance, Changing;
    if n > 0 {
      PlayStep(s, moves, n - 1);
      var w, m := Play(s, moves[..n - 1]), moves[n - 1];
      var entry := Play(s, moves[..n]).state.cache[Key(q)];
      EntryStep(w, m, Key(q));
      if m.Finish? && m.call in w.asked && Key(q) == Key(w.asked[m.call].question) {
        FinishCaches(w, m);
        AskedWasTrue(s, moves, n - 1, m.call);
        var i: nat :| i < n - 1 && ReadAt(s, moves, i, m.call, w.asked[m.call]);
        SameQuestion(moves, i, q, w.asked[m.call].question);
        FinishKeepsRows(w, m, q);
        assert CachesAt(s, moves, n - 1, q);
        assert Origin(s, moves, n, q, entry, i, n - 1);
      } else {
        EntriesHaveOrigin(s, moves, n - 1, q);
        var i: nat, j: nat :| Origin(s, moves, n - 1, q, entry, i, j);
        if !Changing(Play(s, moves[..n]), q) { TruthStep(w, m, q); }
        assert Origin(s, moves, n, q, entry, i, j);
      }
    }
  }

  lemma SameQuestion(moves: seq<Move>, i: nat, q: Question, asked: Question)
    requires WellNamed(moves) && i < |moves| && moves[i].Ask? && moves[i].question == asked
    requires NoColon(q.fileId) && Key(q) == Key(asked)
    ensures q == asked
  {
    hide CacheKey;
    KeyInjective(q.userId, q.fileId, q.op, asked.userId, asked.fileId, asked.op);
  }

  lemma FinishCaches(w: World, m: Move)
    requires m.Finish? && m.call in w.asked
    ensures var key := Key(w.asked[m.call].question);
            && key in Advance(w, m).state.cache
            && Advance(w, m).state.cache[key] == CachedResult(w.asked[m.call].result, m.now + CACHE_TTL_MS)
  {
    hide CacheKey;
  }

  lemma FinishKeepsRows(w: World, m: Move, q: Question)
    requires m.Finish?
    ensures Truth(Advance(w, m).state, q) == Truth(w.state, q)
  {
    hide CacheKey;
  }

  // ---------- when a cached answer is stale ----------

  /** A call changed this user's permission on the file at `r`. */
  ghost predicate ChangesAt(moves: seq<Move>, r: nat, q: Question)
    requires r < |moves|
  {
    moves[r].ChangeRow? && moves[r].grantee == Grantee(q.fileId, q.userId)
  }

  /** Only such a change alters the answer. */
  lemma {:induction false} TruthChanges(s: State, moves: seq<Move>, i: nat, j: nat, q: Question)
    requires i <= j <= |moves| && Truth(Play(s, moves[..i]).state, q) != Truth(Play(s, moves[..j]).state, q)
    ensures exists r: nat | i <= r < j :: ChangesAt(moves, r, q)
    decreases j
  {
    hide CacheKey, Invalidated, Play;
    if i < j {
      PlayStep(s, moves, j - 1);
      if Truth(Play(s, moves[..j - 1]).state, q) != Truth(Play(s, moves[..j]).state, q) {
        assert ChangesAt(moves, j - 1, q);
      } else {
        TruthChanges(s, moves, i, j - 1, q);
      }
    }
  }

  /** The check that was read at `i` and cached at `j` left a stale entry. */
  ghost predicate Straddles(s: State, moves: seq<Move>, q: Question, i: nat, j: nat)
    requires i < |moves| && j < |moves|
  {
    && i < j && moves[i].Ask? && moves[i].question == q && moves[j].Finish? && moves[j].call == moves[i].call
    && Truth(Play(s, moves[..i]).state, q) != Truth(Play(s, moves[..j]).state, q)
    && exists r: nat | i <= r < j :: ChangesAt(moves, r, q)
  }

  /**
   * In every interleaving with fixed files: when no change for its user and file is under way, a
   * cached answer is wrong exactly when the check that cached it had read the rows before a grant or
   * revocation that altered the answer, and cached it after.  It expires one TTL after that.
   */
  lemma StaleIffStraddled(s: State, moves: seq<Move>, q: Question)
    requires s.cache == map[] && WellNamed(moves) && NoColon(q.fileId)
    requires Key(q) in Play(s, moves).state.cache && !Changing(Play(s, moves), q)
    ensures var w, entry := Play(s, moves), Play(s, moves).state.cache[Key(q)];
            exists i: nat, j: nat :: Origin(s, moves, |moves|, q, entry, i, j) &&
              (entry.result != Truth(w.state, q) <==> Straddles(s, moves, q, i, j))
  {
    hide Play, CacheKey, Evaluate, Changing;
    assert moves[..|moves|] == moves;
    EntriesHaveOrigin(s, moves, |moves|, q);
    var w, entry := Play(s, moves), Play(s, moves).state.cache[Key(q)];
    var i: nat, j: nat :| Origin(s, moves, |moves|, q, entry, i, j);
    if Truth(Play(s, moves[..i]).state, q) != Truth(Play(s, moves[..j]).state, q) {
      TruthChanges(s, moves, i, j, q);
    }
    assert entry.result != Truth(w.state, q) <==> Straddles(s, moves, q, i, j);
  }

  /** A check is in flight while its user's only permission is revoked: the allow it read is cached afterwards. */
  lemma RevocationOvertaken(owner: string, user: string, f: string)
    requires user != owner
    ensures var q := Question(user, f, Operation.READ);
            var s := State(map[f := owner], map[Grantee(f, user) := Permission.Read], map[]);
            var w := Play(s, [Ask(1, q, 0), ChangeRow(2, Grantee(f, user), None), Forget(2), Finish(1, 0)]);
            && w.changing == map[] && !Truth(w.state, q)
            && Key(q) in w.state.cache && w.state.cache[Key(q)].result
  {
    hide CacheKey, Invalidated;
    var q := Question(user, f, Operation.READ);
    var s := State(map[f := owner], map[Grantee(f, user) := Permission.Read], map[]);
    var moves := [Ask(1, q, 0), ChangeRow(2, Grantee(f, user), None), Forget(2), Finish(1, 0)];
    PlayStep(s, moves, 0);
    PlayStep(s, moves, 1);
    PlayStep(s, moves, 2);
    PlayStep(s, moves, 3);
    assert moves[..0] == [] && moves[..4] == moves;
    assert Play(s, moves[..1]).asked == map[1 := Asked(q, true)];
    assert Play(s, moves[..2]).changing == map[2 := Grantee(f, user)];
  }
}
