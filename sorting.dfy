/**
 * The stable sort of `Array.prototype.sort` with a descending numeric
 * comparator `(a, b) => key(b) - key(a)`, as the analyzer (by phrase count)
 * and the library (by creation and update time) use it.
 */
module Sorting {

  /** Keys never increase along `s`. */
  predicate NonIncreasing<T>(s: seq<T>, key: T -> int) {
    forall i, j :: 0 <= i < j < |s| ==> key(s[i]) >= key(s[j])
  }

  /** The elements of `s` whose key is `c`, in their order in `s`. */
  function WithKey<T>(s: seq<T>, key: T -> int, c: int): seq<T> {
    if s == [] then [] else (if key(s[0]) == c then [s[0]] else []) + WithKey(s[1..], key, c)
  }

  /** Places `x` in front of the first element whose key is not larger. */
  function Insert<T(==)>(x: T, s: seq<T>, key: T -> int): (r: seq<T>)
    ensures multiset(r) == multiset(s) + multiset{x} && |r| == |s| + 1
  {
    if s == [] || key(x) >= key(s[0]) then [x] + s
    else
      assert s == [s[0]] + s[1..];
      [s[0]] + Insert(x, s[1..], key)
  }

  /** An element whose key bounds every key of a non-increasing list can go in front of it. */
  lemma ConsNonIncreasing<T>(h: T, u: seq<T>, key: T -> int)
    requires NonIncreasing(u, key)
    requires forall y :: y in u ==> key(y) <= key(h)
    ensures NonIncreasing([h] + u, key)
  {
    var r := [h] + u;
    forall i, j | 0 <= i < j < |r| ensures key(r[i]) >= key(r[j]) {
      assert r[j] == u[j - 1] && r[j] in u;
      if i > 0 {
        assert r[i] == u[i - 1];
      }
    }
  }

  lemma {:induction false} InsertSorted<T>(x: T, s: seq<T>, key: T -> int)
    requires NonIncreasing(s, key)
    ensures NonIncreasing(Insert(x, s, key), key)
  {
    if s == [] || key(x) >= key(s[0]) {
      forall y | y in s ensures key(y) <= key(x) {
        var k :| 0 <= k < |s| && s[k] == y;
      }
      ConsNonIncreasing(x, s, key);
    } else {
      var u := Insert(x, s[1..], key);
      assert Insert(x, s, key) == [s[0]] + u;
      assert NonIncreasing(s[1..], key);
      InsertSorted(x, s[1..], key);
      forall y | y in u ensures key(y) <= key(s[0]) {
        assert y in multiset(u);
        if y != x {
          assert y in multiset(s[1..]);
          var k :| 0 <= k < |s[1..]| && s[1..][k] == y;
          assert s[k + 1] == y;
        }
      }
      ConsNonIncreasing(s[0], u, key);
    }
  }

  lemma WithKeyCons<T>(y: T, t: seq<T>, key: T -> int, c: int)
    ensures WithKey([y] + t, key, c) == (if key(y) == c then [y] else []) + WithKey(t, key, c)
  {
    assert ([y] + t)[1..] == t;
  }

  lemma {:induction false} InsertWithKey<T>(x: T, s: seq<T>, key: T -> int, c: int)
    ensures WithKey(Insert(x, s, key), key, c) == (if key(x) == c then [x] else []) + WithKey(s, key, c)
  {
    if s == [] || key(x) >= key(s[0]) {
      WithKeyCons(x, s, key, c);
    } else {
      var u := Insert(x, s[1..], key);
      var w := WithKey(s[1..], key, c);
      var h := if key(s[0]) == c then [s[0]] else [];
      var hx := if key(x) == c then [x] else [];
      assert Insert(x, s, key) == [s[0]] + u;
      InsertWithKey(x, s[1..], key, c);
      WithKeyCons(s[0], u, key, c);
      assert WithKey(s, key, c) == h + w;
      assert WithKey(u, key, c) == hx + w;
      assert WithKey([s[0]] + u, key, c) == h + WithKey(u, key, c);
      if key(x) == c {
        assert h == [];
        assert WithKey([s[0]] + u, key, c) == hx + w;
        assert WithKey(s, key, c) == w;
      } else {
        assert hx == [];
        assert WithKey([s[0]] + u, key, c) == h + w;
      }
    }
  }

  /** The stable descending sort: keys never increase and the elements are a
      permutation of the input (for stability see SortDescStable). */
  function SortDesc<T(==)>(s: seq<T>, key: T -> int): (r: seq<T>)
    ensures NonIncreasing(r, key)
    ensures multiset(r) == multiset(s) && |r| == |s|
  {
    if s == [] then []
    else
      assert s == [s[0]] + s[1..];
      InsertSorted(s[0], SortDesc(s[1..], key), key);
      Insert(s[0], SortDesc(s[1..], key), key)
  }

  /** The elements sharing a key keep their relative order. */
  lemma {:induction false} SortDescStable<T>(s: seq<T>, key: T -> int, c: int)
    ensures WithKey(SortDesc(s, key), key, c) == WithKey(s, key, c)
  {
    if s != [] {
      SortDescStable(s[1..], key, c);
      InsertWithKey(s[0], SortDesc(s[1..], key), key, c);
    }
  }

  /** The index of the first element whose key is maximal. */
  function MaxIndex<T>(s: seq<T>, key: T -> int): (k: nat)
    requires s != []
    ensures k < |s|
    ensures forall j :: 0 <= j < |s| ==> key(s[j]) <= key(s[k])
    ensures forall j :: 0 <= j < k ==> key(s[j]) < key(s[k])
  {
    if |s| == 1 then 0
    else
      var k := MaxIndex(s[1..], key);
      if key(s[0]) >= key(s[1..][k]) then 0 else k + 1
  }

  /** The head of the stable descending sort is the first element with maximal key. */
  lemma {:induction false} SortDescHead<T>(s: seq<T>, key: T -> int)
    requires s != []
    ensures SortDesc(s, key)[0] == s[MaxIndex(s, key)]
  {
    if |s| > 1 {
      SortDescHead(s[1..], key);
    }
  }

  /** Ranks strictly increase along `s`. */
  predicate Ascending<T>(s: seq<T>, rank: T -> int) {
    forall i, j :: 0 <= i < j < |s| ==> rank(s[i]) < rank(s[j])
  }

  /** Ordered by key, descending, and among equal keys by rank, ascending. */
  predicate SortedThenBy<T>(s: seq<T>, key: T -> int, rank: T -> int) {
    forall i, j :: 0 <= i < j < |s| ==> Precedes(s[i], s[j], key, rank)
  }

  /** `a` has the larger key, or the same key and the smaller rank. */
  predicate Precedes<T>(a: T, b: T, key: T -> int, rank: T -> int) {
    key(a) > key(b) || (key(a) == key(b) && rank(a) < rank(b))
  }

  /** An element preceding every element of a sorted list can go in front of it. */
  lemma ConsThenBy<T>(h: T, u: seq<T>, key: T -> int, rank: T -> int)
    requires SortedThenBy(u, key, rank)
    requires forall y :: y in u ==> Precedes(h, y, key, rank)
    ensures SortedThenBy([h] + u, key, rank)
  {
    var r := [h] + u;
    forall i, j | 0 <= i < j < |r| ensures Precedes(r[i], r[j], key, rank) {
      assert r[j] == u[j - 1];
      if i == 0 {
        assert u[j - 1] in u;
      } else {
        assert r[i] == u[i - 1];
      }
    }
  }

  /** Stability stated by a secondary key: when the input is in ascending rank
      order, equal keys come out in ascending rank order. */
  lemma {:induction false} SortDescTies<T>(s: seq<T>, key: T -> int, rank: T -> int)
    requires Ascending(s, rank)
    ensures SortedThenBy(SortDesc(s, key), key, rank)
  {
    if s != [] {
      var t := SortDesc(s[1..], key);
      SortDescTies(s[1..], key, rank);
      forall y | y in t ensures rank(s[0]) < rank(y) {
        assert y in multiset(s[1..]);
        assert y in s[1..];
      }
      InsertTies(s[0], t, key, rank);
    }
  }

  lemma {:induction false} InsertTies<T>(x: T, t: seq<T>, key: T -> int, rank: T -> int)
    requires SortedThenBy(t, key, rank)
    requires forall y :: y in t ==> rank(x) < rank(y)
    ensures SortedThenBy(Insert(x, t, key), key, rank)
  {
    if t != [] && key(x) < key(t[0]) {
      assert SortedThenBy(t[1..], key, rank) by {
        forall i, j | 0 <= i < j < |t[1..]| ensures Precedes(t[1..][i], t[1..][j], key, rank) {
          assert t[1..][i] == t[i + 1] && t[1..][j] == t[j + 1];
        }
      }
      InsertTies(x, t[1..], key, rank);
      var u := Insert(x, t[1..], key);
      forall y | y in u ensures Precedes(t[0], y, key, rank) {
        assert y in multiset(u);
        if y != x {
          assert y in t[1..];
          var k :| 0 <= k < |t[1..]| && t[1..][k] == y;
          assert t[k + 1] == y;
        }
      }
      ConsThenBy(t[0], u, key, rank);
      assert Insert(x, t, key) == [t[0]] + u;
    } else {
      forall y | y in t ensures Precedes(x, y, key, rank) {
        var k :| 0 <= k < |t| && t[k] == y;
        if k > 0 {
          assert Precedes(t[0], t[k], key, rank);
        }
      }
      ConsThenBy(x, t, key, rank);
    }
  }

  /** The first `n` elements, or all of them when there are fewer (`slice(0, n)`). */
  function Take<T>(s: seq<T>, n: nat): (r: seq<T>)
    ensures |r| == if |s| <= n then |s| else n
    ensures r == s[..|r|]
    ensures |s| <= n ==> r == s
  {
    if |s| <= n then s else s[..n]
  }

  /** An element of a sequence sorted by descending key survives `Take(s, n)`,
      or the prefix is full and its last key is at least the element's. */
  lemma TakeKeeps<T>(s: seq<T>, x: T, n: nat, key: T -> int)
    requires x in s && NonIncreasing(s, key) && n > 0
    ensures x in Take(s, n) || (|Take(s, n)| == n && key(x) <= key(Take(s, n)[n - 1]))
  {
    var k :| 0 <= k < |s| && s[k] == x;
    if k >= n {
      assert Take(s, n)[n - 1] == s[n - 1];
    } else {
      assert Take(s, n)[k] == x;
    }
  }
}
