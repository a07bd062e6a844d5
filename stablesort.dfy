/**
 * The ordering `Array.prototype.sort` produces with the comparator
 * `(a, b) => key(b) - key(a)`: a stable sort by descending key, written here as
 * an insertion sort and characterised by three lemmas (sorted, a permutation,
 * and equal keys keep their input order).
 */
module StableSort {

  ghost predicate SortedDesc<T>(s: seq<T>, key: T -> real) {
    forall i, j :: 0 <= i < j < |s| ==> key(s[i]) >= key(s[j])
  }

  /** The elements of `s` whose key is `v`, in their order in `s`. */
  function WithKey<T>(s: seq<T>, key: T -> real, v: real): seq<T> {
    if |s| == 0 then [] else (if key(s[0]) == v then [s[0]] else []) + WithKey(s[1..], key, v)
  }

  /** Puts `x` after every element whose key is at least `key(x)`. */
  function Insert<T>(s: seq<T>, x: T, key: T -> real): seq<T> {
    if |s| == 0 then [x]
    else if key(s[0]) >= key(x) then [s[0]] + Insert(s[1..], x, key)
    else [x] + s
  }

  function SortDesc<T>(s: seq<T>, key: T -> real): seq<T> {
    if |s| == 0 then [] else Insert(SortDesc(s[..|s| - 1], key), s[|s| - 1], key)
  }

  lemma {:induction false} WithKeyAppend<T>(a: seq<T>, b: seq<T>, key: T -> real, v: real)
    ensures WithKey(a + b, key, v) == WithKey(a, key, v) + WithKey(b, key, v)
  {
    if |a| > 0 {
      assert (a + b)[1..] == a[1..] + b;
      WithKeyAppend(a[1..], b, key, v);
    } else {
      assert a + b == b;
    }
  }

  lemma {:induction false} WithKeyNone<T>(s: seq<T>, key: T -> real, v: real)
    requires forall i :: 0 <= i < |s| ==> key(s[i]) != v
    ensures WithKey(s, key, v) == []
  {
    if |s| > 0 {
      WithKeyNone(s[1..], key, v);
    }
  }

  lemma {:induction false} InsertMultiset<T>(s: seq<T>, x: T, key: T -> real)
    ensures multiset(Insert(s, x, key)) == multiset(s) + multiset{x}
  {
    if |s| == 0 {
      assert Insert(s, x, key) == [x];
    } else if key(s[0]) >= key(x) {
      InsertMultiset(s[1..], x, key);
      assert Insert(s, x, key) == [s[0]] + Insert(s[1..], x, key);
      assert s == [s[0]] + s[1..];
      assert multiset(Insert(s, x, key)) == multiset([s[0]]) + multiset(Insert(s[1..], x, key));
      assert multiset(s) == multiset([s[0]]) + multiset(s[1..]);
    } else {
      assert Insert(s, x, key) == [x] + s;
    }
  }

  lemma {:induction false} InsertBound<T>(s: seq<T>, x: T, key: T -> real, b: real)
    requires forall i :: 0 <= i < |s| ==> key(s[i]) <= b
    requires key(x) <= b
    ensures forall i :: 0 <= i < |Insert(s, x, key)| ==> key(Insert(s, x, key)[i]) <= b
  {
    if |s| > 0 && key(s[0]) >= key(x) {
      InsertBound(s[1..], x, key, b);
    }
  }

  lemma {:induction false} InsertSorted<T>(s: seq<T>, x: T, key: T -> real)
    requires SortedDesc(s, key)
    ensures SortedDesc(Insert(s, x, key), key)
  {
    if |s| > 0 && key(s[0]) >= key(x) {
      InsertSorted(s[1..], x, key);
      InsertBound(s[1..], x, key, key(s[0]));
    }
  }

  lemma {:induction false} InsertWithKey<T>(s: seq<T>, x: T, key: T -> real, v: real)
    requires SortedDesc(s, key)
    ensures WithKey(Insert(s, x, key), key, v) == WithKey(s, key, v) + (if key(x) == v then [x] else [])
  {
    var r := Insert(s, x, key);
    if |s| == 0 {
    } else if key(s[0]) >= key(x) {
      var r' := Insert(s[1..], x, key);
      assert SortedDesc(s[1..], key) by {
        forall i, j | 0 <= i < j < |s[1..]| ensures key(s[1..][i]) >= key(s[1..][j]) {
          assert s[1..][i] == s[i + 1] && s[1..][j] == s[j + 1];
        }
      }
      InsertWithKey(s[1..], x, key, v);
      assert r == [s[0]] + r';
      assert r[1..] == r';
      var head := if key(s[0]) == v then [s[0]] else [];
      assert WithKey(r, key, v) == head + WithKey(r', key, v);
      assert WithKey(s, key, v) == head + WithKey(s[1..], key, v);
    } else {
      assert r == [x] + s;
      assert r[1..] == s;
      if key(x) == v {
        assert forall i :: 0 <= i < |s| ==> key(s[i]) <= key(s[0]);
        WithKeyNone(s, key, v);
        assert WithKey(r, key, v) == [x] + WithKey(s, key, v);
      } else {
        assert WithKey(r, key, v) == WithKey(s, key, v);
      }
    }
  }

  /**
   * The sort orders by descending key, is a permutation of its input, and
   * keeps the input order among elements with equal keys.
   */
  lemma {:induction false} SortDescCorrect<T>(s: seq<T>, key: T -> real)
    ensures SortedDesc(SortDesc(s, key), key)
    ensures multiset(SortDesc(s, key)) == multiset(s)
    ensures forall v :: WithKey(SortDesc(s, key), key, v) == WithKey(s, key, v)
  {
    if |s| > 0 {
      var init, last := s[..|s| - 1], s[|s| - 1];
      SortDescCorrect(init, key);
      InsertSorted(SortDesc(init, key), last, key);
      InsertMultiset(SortDesc(init, key), last, key);
      assert s == init + [last];
      forall v ensures WithKey(SortDesc(s, key), key, v) == WithKey(s, key, v) {
        InsertWithKey(SortDesc(init, key), last, key, v);
        WithKeyAppend(init, [last], key, v);
      }
    }
  }
}
