/**
 * What adding or removing one node does to every lookup (src/consistent-hash-ring.ts:29-115):
 * the order of the other nodes never changes.
 */
module RingMovement {
  import opened Collections
  import opened Sorting
  import opened ConsistentHashRing

  /** Deleting a node commutes with taking first occurrences. */
  lemma {:induction false} FirstOccurrencesExcept(s: seq<string>, x: string)
    ensures FirstOccurrences(Except(s, x)) == Except(FirstOccurrences(s), x)
  {
    if s != [] {
      var init, y := s[..|s| - 1], s[|s| - 1];
      FirstOccurrencesExcept(init, x);
      ExceptMember(FirstOccurrences(init), x, y);
      if y != x {
        assert (Except(init, x) + [y])[..|Except(init, x)|] == Except(init, x);
      }
      if y != "" && y !in FirstOccurrences(init) {
        assert (FirstOccurrences(init) + [y])[..|FirstOccurrences(init)|] == FirstOccurrences(init);
      }
    }
  }

  // ---------- points ----------

  /** The points of `s` that `keep` contains, in order. */
  function Keep(s: seq<string>, keep: set<string>): seq<string> {
    if s == [] then [] else
      var init := Keep(s[..|s| - 1], keep);
      if s[|s| - 1] in keep then init + [s[|s| - 1]] else init
  }

  lemma {:induction false} KeepSorted(s: seq<string>, keep: set<string>)
    requires SortedStrings(s)
    ensures SortedStrings(Keep(s, keep)) && Elements(Keep(s, keep)) == Elements(s) * keep
  {
    hide LexLess;
    if s != [] {
      var init, y := s[..|s| - 1], s[|s| - 1];
      KeepSorted(init, keep);
      assert s == init + [y];
      ElementsAppend(init, y);
      ElementsAppend(Keep(init, keep), y);
      forall p | p in Keep(init, keep) ensures LexLess(p, y) {
        assert p in Elements(Keep(init, keep));
        assert p in Elements(init);
        var i :| 0 <= i < |init| && init[i] == p;
        assert LexLess(s[i], s[|s| - 1]);
      }
    }
  }

  lemma KeepSortStrings(points: set<string>, keep: set<string>)
    ensures Keep(SortStrings(points), keep) == SortStrings(points * keep)
  {
    hide SortStrings, LexLess;
    KeepSorted(SortStrings(points), keep);
    SortStringsUnique(Keep(SortStrings(points), keep));
  }

  lemma {:induction false} KeepConcat(a: seq<string>, b: seq<string>, keep: set<string>)
    ensures Keep(a + b, keep) == Keep(a, keep) + Keep(b, keep)
  {
    if b == [] {
      assert a + b == a;
    } else {
      assert (a + b)[..|a + b| - 1] == a + b[..|b| - 1];
      KeepConcat(a, b[..|b| - 1], keep);
    }
  }

  /** Deleting points leaves the clockwise order of the others alone. */
  lemma KeepClockwise(points: set<string>, keep: set<string>, hash: string)
    ensures Keep(ClockwisePoints(points, hash), keep) == ClockwisePoints(points * keep, hash)
  {
    hide SortStrings, Keep, LexLess;
    KeepConcat(SortStrings(PointsFrom(points, hash)), SortStrings(PointsBefore(points, hash)), keep);
    KeepSortStrings(PointsFrom(points, hash), keep);
    KeepSortStrings(PointsBefore(points, hash), keep);
    assert PointsFrom(points, hash) * keep == PointsFrom(points * keep, hash);
    assert PointsBefore(points, hash) * keep == PointsBefore(points * keep, hash);
  }

  function OwnersOf(table: Table, points: seq<string>): (r: seq<string>)
    requires forall p :: p in points ==> p in table
  {
    if points == [] then [] else
      assert points == points[..|points| - 1] + [points[|points| - 1]];
      OwnersOf(table, points[..|points| - 1]) + [table[points[|points| - 1]]]
  }

  lemma {:induction false} OwnersOfAt(table: Table, points: seq<string>)
    requires forall p :: p in points ==> p in table
    ensures |OwnersOf(table, points)| == |points|
    ensures forall i :: 0 <= i < |points| ==> OwnersOf(table, points)[i] == table[points[i]]
  {
    if points != [] {
      OwnersOfAt(table, points[..|points| - 1]);
    }
  }

  lemma {:induction false} OwnersOfExcept(table: Table, points: seq<string>, x: string)
    requires forall p :: p in points ==> p in table
    ensures forall p :: p in Keep(points, WithoutNode(table, x).Keys) ==> p in WithoutNode(table, x)
    ensures OwnersOf(WithoutNode(table, x), Keep(points, WithoutNode(table, x).Keys)) ==
              Except(OwnersOf(table, points), x)
  {
    if points != [] {
      var init, y := points[..|points| - 1], points[|points| - 1];
      assert points == init + [y];
      OwnersOfExcept(table, init, x);
      var kept := Keep(init, WithoutNode(table, x).Keys);
      assert (kept + [y])[..|kept|] == kept;
      assert (OwnersOf(table, init) + [table[y]])[..|OwnersOf(table, init)|] == OwnersOf(table, init);
    }
  }

  lemma ClockwiseOwnersOf(table: Table, hash: string)
    ensures forall p :: p in ClockwisePoints(table.Keys, hash) ==> p in table
    ensures ClockwiseOwners(table, hash) == OwnersOf(table, ClockwisePoints(table.Keys, hash))
  {
    hide ClockwisePoints;
    var points := ClockwisePoints(table.Keys, hash);
    assert forall p :: p in points ==> p in Elements(points);
    OwnersOfAt(table, points);
  }

  lemma ClockwiseOwnersExcept(table: Table, x: string, hash: string)
    ensures ClockwiseOwners(WithoutNode(table, x), hash) == Except(ClockwiseOwners(table, hash), x)
  {
    hide ClockwisePoints, ClockwiseOwners, OwnersOf, Keep, Except;
    ClockwiseOwnersOf(table, hash);
    ClockwiseOwnersOf(WithoutNode(table, x), hash);
    OwnersOfExcept(table, ClockwisePoints(table.Keys, hash), x);
    KeepClockwise(table.Keys, WithoutNode(table, x).Keys, hash);
    assert table.Keys * WithoutNode(table, x).Keys == WithoutNode(table, x).Keys;
  }

  // ---------- minimal movement ----------

  /** After a removal the full clockwise order is the old one with the node deleted. */
  lemma RemovalOnlyDeletesNode(table: Table, x: string, hash: string)
    ensures ClockwiseNodes(WithoutNode(table, x), hash) == Except(ClockwiseNodes(table, hash), x)
  {
    hide ClockwiseOwners, FirstOccurrences, Except, WithoutNode;
    ClockwiseOwnersExcept(table, x, hash);
    FirstOccurrencesExcept(ClockwiseOwners(table, hash), x);
  }

  /**
   * Removing `x`: every lookup keeps all its other nodes, in order, in front; only the place
   * of `x`, when it had one, is given to a node from further round the ring.
   */
  lemma RemovalMovesOnlyNode(table: Table, x: string, hash: string, count: int)
    ensures var before := Lookup(table, hash, count);
            var after := Lookup(WithoutNode(table, x), hash, count);
            && Except(before, x) <= after
            && |after| <= |Except(before, x)| + (if x in before then 1 else 0)
            && (x !in before ==> after == before)
  {
    hide ClockwiseNodes, Except, WithoutNode, Take, Distinct;
    RemovalOnlyDeletesNode(table, x, hash);
    ClockwiseNodesFacts(table, hash);
    TakeExceptTake(ClockwiseNodes(table, hash), x, count);
    TakeOneFewer(ClockwiseNodes(WithoutNode(table, x), hash), count);
    var before := Lookup(table, hash, count);
    if x !in before { ExceptAbsent(before, x); }
  }

  lemma {:induction false} AddThenRemove(table: Table, points: set<string>, x: string)
    requires x !in table.Values
    ensures WithoutNode(WithPoints(table, points, x), x) == table <==> points !! table.Keys
  {
    var back := WithoutNode(WithPoints(table, points, x), x);
    forall p ensures p in back <==> p in table && p !in points {
      if p in table && p !in points {
        assert table[p] in table.Values;
      }
    }
    if points !! table.Keys {
      assert back == table;
    } else {
      var p :| p in points && p in table;
      assert p !in back;
    }
  }

  /**
   * Adding a fresh `x` at unused points: deleting `x` from any new answer gives the old answer,
   * less its last node exactly when `x` came in and the list was full.
   */
  lemma AdditionMovesOnlyNode(table: Table, points: set<string>, x: string, hash: string, count: int)
    requires x !in table.Values && points !! table.Keys
    ensures var before := Lookup(table, hash, count);
            var after := Lookup(WithPoints(table, points, x), hash, count);
            && Except(ClockwiseNodes(WithPoints(table, points, x), hash), x) == ClockwiseNodes(table, hash)
            && Except(after, x) <= before
            && |before| <= |Except(after, x)| + (if x in after then 1 else 0)
            && (x !in after ==> after == before)
  {
    hide ClockwiseNodes, Except, WithoutNode, WithPoints, Take, Distinct;
    var bigger := WithPoints(table, points, x);
    AddThenRemove(table, points, x);
    RemovalOnlyDeletesNode(bigger, x, hash);
    ClockwiseNodesFacts(bigger, hash);
    TakeExceptTake(ClockwiseNodes(bigger, hash), x, count);
    TakeOneFewer(ClockwiseNodes(table, hash), count);
    var after := Lookup(bigger, hash, count);
    if x !in after { ExceptAbsent(after, x); }
  }
}
