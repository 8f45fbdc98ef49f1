/** Small facts about finite sequences and sets. */
module Collections {

  function Elements<T>(s: seq<T>): set<T> {
    set x | x in s
  }

  ghost predicate Distinct<T>(s: seq<T>) {
    forall i, j :: 0 <= i < j < |s| ==> s[i] != s[j]
  }

  function Take<T>(s: seq<T>, count: int): seq<T> {
    if count <= 0 then [] else if count < |s| then s[..count] else s
  }

  lemma ElementsAppend<T>(s: seq<T>, x: T)
    ensures Elements<T>([]) == {}
    ensures x in Elements(s) <==> x in s
    ensures Elements(s + [x]) == Elements(s) + {x}
  {
  }

  lemma ElementsConcat<T>(a: seq<T>, b: seq<T>)
    ensures Elements(a + b) == Elements(a) + Elements(b)
  {
  }

  lemma PrefixElements<T>(s: seq<T>, i: nat)
    requires i < |s|
    ensures Elements(s[..i + 1]) == Elements(s[..i]) + {s[i]}
  {
    assert s[..i + 1] == s[..i] + [s[i]];
  }

  lemma {:induction false} DistinctCardinality<T>(s: seq<T>)
    requires Distinct(s)
    ensures |Elements(s)| == |s|
  {
    if s != [] {
      var init := s[..|s| - 1];
      DistinctCardinality(init);
      assert s == init + [s[|s| - 1]];
      assert Elements(s) == Elements(init) + {s[|s| - 1]};
      assert s[|s| - 1] !in Elements(init);
    }
  }

  lemma SubsetCardinality<T>(a: set<T>, b: set<T>)
    requires a <= b
    ensures |a| <= |b|
  {
    assert b == a + (b - a);
  }

  lemma SubsetEqual<T>(a: set<T>, b: set<T>)
    requires a <= b && |a| == |b|
    ensures a == b
  {
    assert b == a + (b - a);
    assert |b - a| == 0;
  }

  /** The `n` integers from `start` on. */
  function Interval(start: int, n: nat): (r: set<int>)
    ensures |r| == n && forall i :: i in r <==> start <= i < start + n
  {
    if n == 0 then {} else Interval(start, n - 1) + {start + n - 1}
  }

  function Min(a: int, b: int): int { if a < b then a else b }

  // ---------- lists with one element deleted ----------

  /** `s` with every occurrence of `x` deleted. */
  function Except<T(==)>(s: seq<T>, x: T): seq<T> {
    if s == [] then [] else
      var init := Except(s[..|s| - 1], x);
      if s[|s| - 1] == x then init else init + [s[|s| - 1]]
  }

  lemma {:induction false} ExceptMember<T>(s: seq<T>, x: T, y: T)
    ensures y in Except(s, x) <==> y in s && y != x
  {
    if s != [] {
      ExceptMember(s[..|s| - 1], x, y);
      assert s == s[..|s| - 1] + [s[|s| - 1]];
    }
  }

  lemma {:induction false} ExceptAbsent<T>(s: seq<T>, x: T)
    requires x !in s
    ensures Except(s, x) == s
  {
    if s != [] {
      ExceptAbsent(s[..|s| - 1], x);
      assert s == s[..|s| - 1] + [s[|s| - 1]];
    }
  }

  lemma {:induction false} ExceptConcat<T>(a: seq<T>, b: seq<T>, x: T)
    ensures Except(a + b, x) == Except(a, x) + Except(b, x)
  {
    if b == [] {
      assert a + b == a;
    } else {
      assert (a + b)[..|a + b| - 1] == a + b[..|b| - 1];
      ExceptConcat(a, b[..|b| - 1], x);
    }
  }

  lemma {:induction false} TakeExcept<T>(s: seq<T>, x: T, k: nat)
    requires Distinct(s) && k <= |s|
    ensures Except(s[..k], x) <= Except(s, x)
    ensures |Except(s[..k], x)| == if x in s[..k] then k - 1 else k
    decreases |s|
  {
    var n := |s|;
    if n > 0 {
      var init := s[..n - 1];
      assert s == init + [s[n - 1]];
      if k < n {
        assert s[..k] == init[..k];
        TakeExcept(init, x, k);
      } else {
        assert s[..k] == s;
        TakeExcept(init, x, n - 1);
        assert init[..n - 1] == init;
      }
    }
  }

  /** How a list of `count` nodes answers once `x` is gone. */
  lemma TakeExceptTake<T>(s: seq<T>, x: T, count: int)
    requires Distinct(s)
    ensures Except(Take(s, count), x) == Take(Except(s, x), if x in Take(s, count) then count - 1 else count)
    ensures |Except(Take(s, count), x)| == |Take(s, count)| - (if x in Take(s, count) then 1 else 0)
  {
    hide Except, Distinct;
    var k := |Take(s, count)|;
    assert Take(s, count) == s[..k];
    TakeExcept(s, x, k);
    TakeExcept(s, x, |s|);
    assert s[..|s|] == s;
    if x in s[..k] { assert x in s; }
    var t, u := Except(s[..k], x), Except(s, x);
    assert t == u[..|t|];
    assert u[..|u|] == u;
  }

  lemma TakeDistinct<T>(s: seq<T>, count: nat)
    requires Distinct(s)
    ensures Distinct(Take(s, count)) && |Take(s, count)| <= count
  {
  }

  lemma TakeOneFewer<T>(s: seq<T>, count: int)
    ensures Take(s, count - 1) <= Take(s, count)
    ensures |Take(s, count)| <= |Take(s, count - 1)| + 1
  {
  }

  lemma {:induction false} ExceptElements<T>(s: seq<T>, x: T)
    ensures Elements(Except(s, x)) == Elements(s) - {x}
  {
    if s == [] {
      ElementsAppend(s, x);
    } else {
      var init, y := s[..|s| - 1], s[|s| - 1];
      assert s == init + [y];
      ExceptElements(init, x);
      ElementsAppend(init, y);
      ElementsAppend(Except(init, x), y);
    }
  }

  lemma {:induction false} ExceptDistinct<T>(s: seq<T>, x: T)
    requires Distinct(s)
    ensures Distinct(Except(s, x)) && Elements(Except(s, x)) == Elements(s) - {x}
  {
    ExceptElements(s, x);
    if s != [] {
      ExceptDistinct(s[..|s| - 1], x);
      ExceptMember(s[..|s| - 1], x, s[|s| - 1]);
    }
  }
}
