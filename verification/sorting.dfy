/** A stable sort by an integer key, standing for `Collections.sort` on a
    list whose elements compare by the difference of their keys (requests
    by earliest pickup time, nearest taxis by distance). */
module Sorting {

  /** The keys never decrease along `s`. */
  predicate SortedBy<T>(s: seq<T>, key: T -> int)
  {
    forall i, j :: 0 <= i < j < |s| ==> key(s[i]) <= key(s[j])
  }

  /** The elements of `s` whose key is `k`, in their order in `s`. */
  function WithKey<T>(s: seq<T>, key: T -> int, k: int): seq<T>
  {
    if s == [] then []
    else WithKey(s[..|s| - 1], key, k) + (if key(s[|s| - 1]) == k then [s[|s| - 1]] else [])
  }

  /** Stability: for every key, the elements with that key keep their order. */
  ghost predicate Stable<T>(s: seq<T>, r: seq<T>, key: T -> int)
  {
    forall k :: WithKey(r, key, k) == WithKey(s, key, k)
  }

  /** The part of `s` with key `k` grows by `x` exactly when `x` has key `k`. */
  lemma WithKeyAppend<T>(s: seq<T>, key: T -> int, k: int, x: T)
    ensures WithKey(s + [x], key, k) == WithKey(s, key, k) + (if key(x) == k then [x] else [])
  {
    assert (s + [x])[..|s + [x]| - 1] == s;
  }

  lemma MultisetOfLast<T>(s: seq<T>)
    requires s != []
    ensures multiset(s) == multiset(s[..|s| - 1]) + multiset{s[|s| - 1]}
  {
    assert s == s[..|s| - 1] + [s[|s| - 1]];
  }

  /** Inserts `x` into the sorted `s` after every element whose key is at
      most `x`'s, so that `x` follows the elements with equal keys. */
  function InsertSorted<T(==)>(s: seq<T>, x: T, key: T -> int): (r: seq<T>)
    requires SortedBy(s, key)
    ensures SortedBy(r, key)
    ensures |r| == |s| + 1
    ensures multiset(r) == multiset(s) + multiset{x}
    ensures forall k :: WithKey(r, key, k) == WithKey(s, key, k) + (if key(x) == k then [x] else [])
    decreases |s|
  {
    if s == [] then
      WithKeysOfOne(x, key);
      [x]
    else
      var last := s[|s| - 1];
      if key(last) <= key(x) then
        WithKeysAppended(s, key, x);
        s + [x]
      else
        var mid := InsertSorted(s[..|s| - 1], x, key);
        InsertPastLast(s, x, key, mid);
        mid + [last]
  }

  lemma WithKeysOfOne<T>(x: T, key: T -> int)
    ensures forall k :: WithKey([x], key, k) == (if key(x) == k then [x] else [])
  {
    forall k
      ensures WithKey([x], key, k) == (if key(x) == k then [x] else [])
    {
      WithKeyAppend([], key, k, x);
      assert [] + [x] == [x];
    }
  }

  lemma WithKeysAppended<T>(s: seq<T>, key: T -> int, x: T)
    ensures forall k :: WithKey(s + [x], key, k) == WithKey(s, key, k) + (if key(x) == k then [x] else [])
  {
    forall k
      ensures WithKey(s + [x], key, k) == WithKey(s, key, k) + (if key(x) == k then [x] else [])
    {
      WithKeyAppend(s, key, k, x);
    }
  }

  /** The recursive case of InsertSorted: `x` goes before the last element,
      whose key is larger, into the front part, giving `mid`. */
  lemma InsertPastLast<T>(s: seq<T>, x: T, key: T -> int, mid: seq<T>)
    requires SortedBy(s, key) && s != [] && key(x) < key(s[|s| - 1])
    requires SortedBy(mid, key)
    requires multiset(mid) == multiset(s[..|s| - 1]) + multiset{x}
    requires forall k :: WithKey(mid, key, k) == WithKey(s[..|s| - 1], key, k) + (if key(x) == k then [x] else [])
    ensures SortedBy(mid + [s[|s| - 1]], key)
    ensures multiset(mid + [s[|s| - 1]]) == multiset(s) + multiset{x}
    ensures forall k :: WithKey(mid + [s[|s| - 1]], key, k) == WithKey(s, key, k) + (if key(x) == k then [x] else [])
  {
    MultisetOfLast(s);
    BelowLast(s, x, key, mid);
    var front, last := s[..|s| - 1], s[|s| - 1];
    forall k
      ensures WithKey(mid + [last], key, k) == WithKey(s, key, k) + (if key(x) == k then [x] else [])
    {
      WithKeyAppend(mid, key, k, last);
      var w, lx, ll := WithKey(front, key, k), (if key(x) == k then [x] else []), (if key(last) == k then [last] else []);
      assert WithKey(s, key, k) == w + ll;
      if key(x) == k {
        assert ll == [];
        assert w + lx + ll == w + ll + lx;
      } else {
        assert lx == [];
        assert w + lx + ll == w + ll + lx;
      }
    }
  }

  /** Every element of `mid` is `x` or comes from the front of `s`, so none
      has a key above the last element of `s`. */
  lemma BelowLast<T>(s: seq<T>, x: T, key: T -> int, mid: seq<T>)
    requires SortedBy(s, key) && s != [] && key(x) < key(s[|s| - 1])
    requires SortedBy(mid, key)
    requires multiset(mid) == multiset(s[..|s| - 1]) + multiset{x}
    ensures SortedBy(mid + [s[|s| - 1]], key)
  {
    var front, last := s[..|s| - 1], s[|s| - 1];
    forall i | 0 <= i < |mid|
      ensures key(mid[i]) <= key(last)
    {
      assert mid[i] in multiset(mid);
      if mid[i] != x {
        assert mid[i] in multiset(front);
        var m :| 0 <= m < |front| && front[m] == mid[i];
        assert s[m] == mid[i];
      }
    }
  }

  /** `Collections.sort` with the comparison `key(a) - key(b)`: the result
      is sorted by key, is a permutation of the input, and keeps elements
      with equal keys in their input order. */
  function Sort<T(==)>(s: seq<T>, key: T -> int): (r: seq<T>)
    ensures SortedBy(r, key)
    ensures |r| == |s|
    ensures multiset(r) == multiset(s)
    ensures Stable(s, r, key)
    decreases |s|
  {
    if s == [] then []
    else
      var front := s[..|s| - 1];
      var r := InsertSorted(Sort(front, key), s[|s| - 1], key);
      MultisetOfLast(s);
      r
  }

  /** A sorted, stable rearrangement is unique: any sequence sorted by the
      key that keeps the elements of each key in their input order is the
      result of Sort. */
  lemma SortUnique<T>(s: seq<T>, r: seq<T>, key: T -> int)
    requires SortedBy(r, key) && Stable(s, r, key)
    ensures r == Sort(s, key)
  {
    SortedStableEqual(r, Sort(s, key), key);
  }

  /** An element with key `k` lies behind any non-empty part for `k`. */
  lemma {:induction false} WithKeyWitness<T>(s: seq<T>, key: T -> int, k: int)
    requires WithKey(s, key, k) != []
    ensures exists i :: 0 <= i < |s| && key(s[i]) == k
  {
    var front := s[..|s| - 1];
    if key(s[|s| - 1]) != k {
      WithKeyWitness(front, key, k);
      var i :| 0 <= i < |front| && key(front[i]) == k;
      assert key(s[i]) == k;
    }
  }

  /** Two sorted sequences with the same elements per key end with the same
      key. */
  lemma MaxKeyLast<T>(a: seq<T>, b: seq<T>, key: T -> int)
    requires SortedBy(a, key) && SortedBy(b, key) && a != [] && b != []
    requires forall k :: WithKey(a, key, k) == WithKey(b, key, k)
    ensures key(a[|a| - 1]) == key(b[|b| - 1])
  {
    var x, y := a[|a| - 1], b[|b| - 1];
    KeyReached(a, b, key);
    KeyReached(b, a, key);
  }

  /** The last key of `a` occurs in `b`, so it is at most `b`'s last key. */
  lemma KeyReached<T>(a: seq<T>, b: seq<T>, key: T -> int)
    requires SortedBy(b, key) && a != [] && b != []
    requires WithKey(a, key, key(a[|a| - 1])) == WithKey(b, key, key(a[|a| - 1]))
    ensures key(a[|a| - 1]) <= key(b[|b| - 1])
  {
    var x := a[|a| - 1];
    assert WithKey(b, key, key(x)) != [];
    WithKeyWitness(b, key, key(x));
    var i :| 0 <= i < |b| && key(b[i]) == key(x);
    if i < |b| - 1 {
      assert key(b[i]) <= key(b[|b| - 1]);
    }
  }

  /** A non-empty sequence has elements with the key of its last element. */
  lemma EmptyAlike<T>(a: seq<T>, b: seq<T>, key: T -> int)
    requires forall k :: WithKey(a, key, k) == WithKey(b, key, k)
    ensures a != [] ==> b != []
  {
    if a != [] {
      assert WithKey(b, key, key(a[|a| - 1])) != [];
    }
  }

  /** Two sequences sorted by the same key with the same elements per key
      are equal. */
  lemma {:induction false} SortedStableEqual<T>(a: seq<T>, b: seq<T>, key: T -> int)
    requires SortedBy(a, key) && SortedBy(b, key)
    requires forall k :: WithKey(a, key, k) == WithKey(b, key, k)
    ensures a == b
    decreases |a| + |b|
  {
    EmptyAlike(a, b, key);
    EmptyAlike(b, a, key);
    if a != [] {
      var a', x := a[..|a| - 1], a[|a| - 1];
      var b', y := b[..|b| - 1], b[|b| - 1];
      MaxKeyLast(a, b, key);
      var wa, wb := WithKey(a', key, key(x)), WithKey(b', key, key(x));
      assert wa + [x] == wb + [y] by {
        assert WithKey(a, key, key(x)) == WithKey(b, key, key(x));
      }
      assert (wa + [x])[|wa|] == x && (wb + [y])[|wb|] == y;
      assert x == y;
      forall k
        ensures WithKey(a', key, k) == WithKey(b', key, k)
      {
        var t := if key(x) == k then [x] else [];
        var ua, ub := WithKey(a', key, k), WithKey(b', key, k);
        assert ua + t == ub + t by {
          assert WithKey(a, key, k) == WithKey(b, key, k);
        }
        assert (ua + t)[..|ua|] == ua && (ub + t)[..|ub|] == ub;
      }
      SortedStableEqual(a', b', key);
    }
  }

  /** Two elements with key `k` keep their order in the part with key `k`. */
  lemma {:induction false} WithKeyOrder<T>(s: seq<T>, key: T -> int, k: int, a: nat, b: nat)
    requires a < b < |s| && key(s[a]) == k && key(s[b]) == k
    ensures exists p, q :: 0 <= p < q < |WithKey(s, key, k)| && WithKey(s, key, k)[p] == s[a] && WithKey(s, key, k)[q] == s[b]
  {
    var front := s[..|s| - 1];
    var wf, w := WithKey(front, key, k), WithKey(s, key, k);
    assert w == wf + (if key(s[|s| - 1]) == k then [s[|s| - 1]] else []);
    if b < |s| - 1 {
      WithKeyOrder(front, key, k, a, b);
      var p, q :| 0 <= p < q < |wf| && wf[p] == front[a] && wf[q] == front[b];
      assert w[p] == s[a] && w[q] == s[b];
    } else {
      WithKeyHas(front, key, k, a);
      var p :| 0 <= p < |wf| && wf[p] == front[a];
      assert w[p] == s[a] && w[|wf|] == s[b];
    }
  }

  /** An element with key `k` occurs in the part with key `k`. */
  lemma {:induction false} WithKeyHas<T>(s: seq<T>, key: T -> int, k: int, a: nat)
    requires a < |s| && key(s[a]) == k
    ensures exists p :: 0 <= p < |WithKey(s, key, k)| && WithKey(s, key, k)[p] == s[a]
  {
    var front := s[..|s| - 1];
    var wf, w := WithKey(front, key, k), WithKey(s, key, k);
    assert w == wf + (if key(s[|s| - 1]) == k then [s[|s| - 1]] else []);
    if a < |s| - 1 {
      WithKeyHas(front, key, k, a);
      var p :| 0 <= p < |wf| && wf[p] == front[a];
      assert w[p] == s[a];
    } else {
      assert w[|wf|] == s[a];
    }
  }

  /** Every element of the part with key `k` comes from the sequence. */
  lemma {:induction false} WithKeyFrom<T>(s: seq<T>, key: T -> int, k: int, p: nat)
    requires p < |WithKey(s, key, k)|
    ensures exists a :: 0 <= a < |s| && WithKey(s, key, k)[p] == s[a]
  {
    var front := s[..|s| - 1];
    var wf, w := WithKey(front, key, k), WithKey(s, key, k);
    assert w == wf + (if key(s[|s| - 1]) == k then [s[|s| - 1]] else []);
    if p < |wf| {
      WithKeyFrom(front, key, k, p);
      var a :| 0 <= a < |front| && wf[p] == front[a];
      assert w[p] == s[a];
    } else {
      assert w[p] == s[|s| - 1];
    }
  }
}
