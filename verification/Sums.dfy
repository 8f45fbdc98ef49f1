/** Sums over the rows of a table. */
module Sums {

  ghost function Pick<K>(s: set<K>): K
    requires s != {}
  {
    var k :| k in s; k
  }

  ghost function Sum<K>(m: map<K, int>): int {
    if m == map[] then 0 else
      assert m.Keys != {};
      var k := Pick(m.Keys);
      m[k] + Sum(m - {k})
  }

  /** A row may be taken out of a sum in any order. */
  lemma {:induction false} SumRemove<K>(m: map<K, int>, k: K)
    requires k in m
    ensures Sum(m) == m[k] + Sum(m - {k})
    decreases |m|
  {
    var j := Pick(m.Keys);
    if j != k {
      SumRemove(m - {j}, k);
      SumRemove(m - {k}, j);
      assert m - {j} - {k} == m - {k} - {j};
    }
  }

  lemma SumUpdate<K>(m: map<K, int>, k: K, v: int)
    ensures Sum(m[k := v]) == Sum(m) + v - if k in m then m[k] else 0
  {
    SumRemove(m[k := v], k);
    assert m[k := v] - {k} == m - {k};
    if k in m {
      SumRemove(m, k);
    } else {
      assert m - {k} == m;
    }
  }

  lemma {:induction false} SumNonNegative<K>(m: map<K, int>)
    requires forall k :: k in m ==> m[k] >= 0
    ensures Sum(m) >= 0
    decreases |m|
  {
    if m != map[] {
      SumNonNegative(m - {Pick(m.Keys)});
    }
  }

  lemma {:induction false} SumAtLeast<K>(m: map<K, int>, k: K)
    requires k in m && forall j :: j in m ==> m[j] >= 0
    ensures Sum(m) >= m[k]
  {
    SumRemove(m, k);
    SumNonNegative(m - {k});
  }

  lemma {:induction false} SumZero<K>(m: map<K, int>)
    requires forall k :: k in m ==> m[k] == 0
    ensures Sum(m) == 0
    decreases |m|
  {
    if m != map[] {
      SumZero(m - {Pick(m.Keys)});
    }
  }

  /** Sums of two tables with the same rows add up row by row. */
  lemma {:induction false} SumAdd<K>(a: map<K, int>, b: map<K, int>, c: map<K, int>)
    requires a.Keys == b.Keys == c.Keys
    requires forall k :: k in a ==> c[k] == a[k] + b[k]
    ensures Sum(c) == Sum(a) + Sum(b)
    decreases |c|
  {
    if c != map[] {
      var k := Pick(c.Keys);
      SumRemove(a, k);
      SumRemove(b, k);
      SumAdd(a - {k}, b - {k}, c - {k});
    }
  }

  lemma {:induction false} SumMonotone<K>(a: map<K, int>, b: map<K, int>)
    requires a.Keys == b.Keys
    requires forall k :: k in a ==> a[k] <= b[k]
    ensures Sum(a) <= Sum(b)
    decreases |a|
  {
    if a != map[] {
      var k := Pick(a.Keys);
      SumRemove(b, k);
      SumMonotone(a - {k}, b - {k});
    }
  }

  /** Positive entries of `m`, each charged to an entry of `w` of its own, do not exceed `w`. */
  lemma {:induction false} SumCharged<I, K>(m: map<I, int>, w: map<K, int>, charge: map<I, K>)
    requires forall k :: k in w ==> w[k] >= 0
    requires forall i :: i in m && m[i] > 0 ==> i in charge && charge[i] in w && m[i] <= w[charge[i]]
    requires forall i, j :: i in m && j in m && i in charge && j in charge && charge[i] == charge[j] ==> i == j
    ensures Sum(m) <= Sum(w)
    decreases |m|
  {
    if m == map[] {
      SumNonNegative(w);
    } else {
      var i := Pick(m.Keys);
      if m[i] <= 0 {
        SumCharged(m - {i}, w, charge);
      } else {
        SumRemove(w, charge[i]);
        SumCharged(m - {i}, w - {charge[i]}, charge);
      }
    }
  }
}
