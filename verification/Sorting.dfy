/** Sorting a finite set by a strict total order, and the order JavaScript uses on strings. */
module Sorting {
  import opened Collections

  ghost predicate StrictTotalOrder<T(!new)>(less: (T, T) -> bool) {
    && (forall a :: !less(a, a))
    && (forall a, b :: a != b ==> less(a, b) || less(b, a))
    && (forall a, b, c :: less(a, b) && less(b, c) ==> less(a, c))
  }

  ghost predicate Sorted<T>(less: (T, T) -> bool, s: seq<T>) {
    forall i, j :: 0 <= i < j < |s| ==> less(s[i], s[j])
  }

  predicate Least<T(==)>(less: (T, T) -> bool, s: set<T>, m: T) {
    m in s && forall x :: x in s ==> x == m || less(m, x)
  }

  lemma {:induction false} LeastExists<T(!new)>(less: (T, T) -> bool, s: set<T>)
    requires StrictTotalOrder(less) && s != {}
    ensures exists m :: Least(less, s, m)
  {
    var x :| x in s;
    if s == {x} {
      assert Least(less, s, x);
    } else {
      var rest := s - {x};
      LeastExists(less, rest);
      var m :| Least(less, rest, m);
      assert s == rest + {x};
      assert Least(less, s, if less(x, m) then x else m);
    }
  }

  /** The elements of `s` in increasing order. */
  function SortedSeq<T(==, !new)>(less: (T, T) -> bool, s: set<T>): (r: seq<T>)
    requires StrictTotalOrder(less)
    ensures Sorted(less, r) && Elements(r) == s && |r| == |s|
  {
    if s == {} then [] else
      LeastExists(less, s);
      var m :| m in s && Least(less, s, m);
      var rest := SortedSeq(less, s - {m});
      SortedCons(less, s, m, rest);
      [m] + rest
  }

  lemma SortedCons<T(!new)>(less: (T, T) -> bool, s: set<T>, m: T, rest: seq<T>)
    requires Least(less, s, m) && Sorted(less, rest) && Elements(rest) == s - {m} && |rest| == |s - {m}|
    ensures Sorted(less, [m] + rest) && Elements([m] + rest) == s && |[m] + rest| == |s|
  {
    forall j | 0 <= j < |rest| ensures less(m, rest[j]) {
      assert rest[j] in Elements(rest);
    }
    assert Elements([m] + rest) == Elements(rest) + {m};
  }

  /** A strictly sorted sequence is determined by its set of elements. */
  lemma {:induction false} SortedUnique<T(!new)>(less: (T, T) -> bool, a: seq<T>, b: seq<T>)
    requires StrictTotalOrder(less)
    requires Sorted(less, a) && Sorted(less, b) && Elements(a) == Elements(b)
    ensures a == b
  {
    if b != [] {
      assert b[0] in Elements(b);
      assert b[0] in Elements(a);
    }
    if a != [] {
      assert a[0] in Elements(a);
      assert a[0] in b;
      assert b[0] in Elements(b);
      assert b[0] in a;
      assert a[0] == b[0];
      forall x ensures x in Elements(a[1..]) <==> x in Elements(b[1..]) {
        TailElements(less, a, x);
        TailElements(less, b, x);
        assert x in Elements(a) <==> x in Elements(b);
      }
      SortedUnique(less, a[1..], b[1..]);
      assert a == [a[0]] + a[1..] && b == [b[0]] + b[1..];
    }
  }

  lemma TailElements<T(!new)>(less: (T, T) -> bool, a: seq<T>, x: T)
    requires StrictTotalOrder(less) && Sorted(less, a) && a != []
    ensures x in Elements(a[1..]) <==> x in Elements(a) && x != a[0]
  {
    assert a == [a[0]] + a[1..];
    if x in a[1..] {
      var i :| 0 <= i < |a| - 1 && a[1..][i] == x;
      assert less(a[0], a[i + 1]);
    }
  }

  predicate LexLess(a: string, b: string) {
    b != [] && (a == [] || a[0] < b[0] || (a[0] == b[0] && LexLess(a[1..], b[1..])))
  }

  /** What JavaScript's `<` says: the first difference decides, and a proper prefix comes first. */
  lemma {:induction false} LexLessAt(common: string, x: char, s: string, y: char, t: string)
    requires x != y
    ensures LexLess(common + [x] + s, common + [y] + t) <==> x < y
    ensures LexLess(common, common + [x] + s) && !LexLess(common + [x] + s, common) && !LexLess(common, common)
  {
    if common == [] {
      assert common + [x] + s == [x] + s && common + [y] + t == [y] + t;
    } else {
      var rest := common[1..];
      assert common + [x] + s == [common[0]] + (rest + [x] + s);
      assert common + [y] + t == [common[0]] + (rest + [y] + t);
      LexLessAt(rest, x, s, y, t);
    }
  }

  lemma {:induction false} LexTransitive(a: string, b: string, c: string)
    requires LexLess(a, b) && LexLess(b, c)
    ensures LexLess(a, c)
  {
    if a != [] && a[0] == b[0] == c[0] {
      LexTransitive(a[1..], b[1..], c[1..]);
    }
  }

  lemma {:induction false} LexTotal(a: string, b: string)
    ensures a != b ==> LexLess(a, b) || LexLess(b, a)
    ensures !LexLess(a, a)
  {
    if a != [] {
      LexTotal(a[1..], if b == [] then b else b[1..]);
      if b != [] && a[0] == b[0] {
        assert a == [a[0]] + a[1..] && b == [b[0]] + b[1..];
      }
    }
  }

  lemma LexOrder()
    ensures StrictTotalOrder(LexLess)
  {
    forall a, b ensures !LexLess(a, a) && (a != b ==> LexLess(a, b) || LexLess(b, a)) {
      LexTotal(a, b);
    }
    forall a, b, c | LexLess(a, b) && LexLess(b, c) ensures LexLess(a, c) {
      LexTransitive(a, b, c);
    }
  }

  // ---------- sorted strings ----------

  ghost predicate SortedStrings(s: seq<string>) {
    forall i, j :: 0 <= i < j < |s| ==> LexLess(s[i], s[j])
  }

  /** `Array.from(keys).sort()`. */
  function SortStrings(s: set<string>): (r: seq<string>)
    ensures SortedStrings(r) && Elements(r) == s && |r| == |s|
  {
    LexOrder();
    var r := SortedSeq(LexLess, s);
    assert Sorted(LexLess, r);
    r
  }

  lemma SortStringsUnique(a: seq<string>)
    requires SortedStrings(a)
    ensures SortStrings(Elements(a)) == a
  {
    LexOrder();
    SortedUnique(LexLess, a, SortStrings(Elements(a)));
  }

  /** In a sorted list the entries below `x` come first. */
  lemma SortedSplit(s: seq<string>, i: nat, x: string)
    requires SortedStrings(s) && i < |s|
    ensures LexLess(s[i], x) ==> forall j :: 0 <= j <= i ==> LexLess(s[j], x)
    ensures !LexLess(s[i], x) ==> forall j :: i <= j < |s| ==> !LexLess(s[j], x)
  {
    hide LexLess;
    forall j | 0 <= j < i && LexLess(s[i], x) ensures LexLess(s[j], x) {
      LexTransitive(s[j], s[i], x);
    }
    forall j | i < j < |s| && LexLess(s[j], x) ensures LexLess(s[i], x) {
      LexTransitive(s[i], s[j], x);
    }
  }

  lemma SortedDistinct(s: seq<string>)
    requires SortedStrings(s)
    ensures Distinct(s)
  {
    hide LexLess;
    forall i, j | 0 <= i < j < |s| ensures s[i] != s[j] {
      LexTotal(s[i], s[i]);
    }
  }

  // ---------- sorted integers ----------

  predicate Below(a: int, b: int) { a < b }

  predicate Above(a: int, b: int) { a > b }

  function SortAscending(s: set<int>): (r: seq<int>)
    ensures Elements(r) == s && |r| == |s|
    ensures forall i, j :: 0 <= i < j < |r| ==> r[i] < r[j]
  {
    var r := SortedSeq(Below, s);
    assert forall i, j :: 0 <= i < j < |r| ==> Below(r[i], r[j]);
    r
  }

  function SortDescending(s: set<int>): (r: seq<int>)
    ensures Elements(r) == s && |r| == |s|
    ensures forall i, j :: 0 <= i < j < |r| ==> r[i] > r[j]
  {
    var r := SortedSeq(Above, s);
    assert forall i, j :: 0 <= i < j < |r| ==> Above(r[i], r[j]);
    r
  }
}
