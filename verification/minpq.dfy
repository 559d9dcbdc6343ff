/** MinPQ: the array-backed binary min-heap of the graphs package. The heap
    occupies pq[1..n] and pq[0] is unused; a key at position c has its
    parent at c / 2. Keys are integers (Comparable in the source), and the
    array is a sequence whose length is the array length.

    Members whose name ends in `AsWritten` follow the source statement by
    statement, defects included; the unsuffixed members are the corrected
    definitions, and the findings lemmas set the two side by side. */
module MinPQ {

  /** What a vacated slot holds (`null` in the source); never read as a key. */
  const Vacant: int := 0

  /** `greater(i, j)`: `i.compareTo(j) > 0`. */
  predicate Greater(x: int, y: int) { x > y }

  datatype PQ = PQ(pq: seq<int>, n: int)

  /** A result, or the exception the source throws instead. */
  datatype Result<T> = Ok(value: T) | Underflow | OutOfBounds

  /** The slots 1..n lie inside the array. */
  ghost predicate Valid(q: PQ)
  {
    0 <= q.n < |q.pq|
  }

  /** Heap order on every edge whose parent position is at least `lo`. */
  ghost predicate OrderedFrom(a: seq<int>, n: int, lo: int)
    requires n < |a|
  {
    forall c :: 2 <= c <= n && c / 2 >= lo ==> a[c / 2] <= a[c]
  }

  ghost predicate IsHeap(q: PQ)
  {
    Valid(q) && OrderedFrom(q.pq, q.n, 1)
  }

  /** The keys held in slots 1..n. */
  function Contents(a: seq<int>, n: int): multiset<int>
    requires 0 <= n < |a|
  {
    multiset(a[1..n + 1])
  }

  function Keys(q: PQ): multiset<int>
    requires Valid(q)
  {
    Contents(q.pq, q.n)
  }

  // ---------------------------------------------------------------------
  // Invariants of the hole-moving loops

  /** Heap order on every edge with parent at least `lo`, except the edges
      leaving the hole `h`. */
  ghost predicate OrderedExcept(c: seq<int>, n: int, lo: int, h: int)
    requires n < |c|
  {
    forall k :: 2 <= k <= n && k / 2 >= lo && k / 2 != h ==> c[k / 2] <= c[k]
  }

  /** Below `lo`, the hole's parent is no larger than the hole's children. */
  ghost predicate Bridged(c: seq<int>, n: int, lo: int, h: int)
    requires n < |c| && 0 <= h < |c|
  {
    h > lo ==> forall k :: 2 <= k <= n && k / 2 == h ==> c[h / 2] <= c[k]
  }

  /** Heap order on every edge except the one entering the hole `h`. */
  ghost predicate OrderedBut(c: seq<int>, n: int, h: int)
    requires n < |c|
  {
    forall k :: 2 <= k <= n && k != h ==> c[k / 2] <= c[k]
  }

  /** Everything but the edges touching the hole is ordered. */
  ghost predicate OrderedAround(c: seq<int>, n: int, h: int)
    requires n < |c|
  {
    forall k :: 2 <= k <= n && k != h && k / 2 != h ==> c[k / 2] <= c[k]
  }

  /** Swapping two slots inside 1..n keeps the contents. */
  lemma SwapContents(s: seq<int>, n: int, i: int, j: int)
    requires 1 <= i <= n && 1 <= j <= n && n < |s|
    ensures Contents(s[i := s[j]][j := s[i]], n) == Contents(s, n)
  {
    var s' := s[i := s[j]][j := s[i]];
    assert s'[1..n + 1] == s[1..n + 1][i - 1 := s[j]][j - 1 := s[i]];
  }

  // ---------------------------------------------------------------------
  // sink

  /** The `while (2 * i + 1 <= N)` loop of sink: `t` is the saved key and
      `i` the hole, filled from the smaller child while that child is not
      greater than `t`. Returns the array and the final hole. */
  function SinkLoop(a: seq<int>, n: int, i: int, t: int): (r: (seq<int>, int))
    requires 1 <= i < |a| && n < |a|
    ensures |r.0| == |a| && i <= r.1 < |a|
    ensures i <= n ==> r.1 <= n
    decreases n - i
  {
    if 2 * i + 1 <= n then
      var j := if Greater(a[2 * i + 1], a[2 * i]) then 2 * i else 2 * i + 1;
      if Greater(a[j], t) then (a, i)
      else SinkLoop(a[i := a[j]], n, j, t)
    else (a, i)
  }

  /** `sink(i)` as written: the single-child fix-up compares the stale
      `pq[i]` with `pq[N]` instead of the saved key. */
  function SinkAsWritten(a: seq<int>, n: int, i: int): (r: (seq<int>, int))
    requires 1 <= i < |a| && n < |a|
    ensures |r.0| == |a|
  {
    var t := a[i];
    var (b, k) := SinkLoop(a, n, i, t);
    if 2 * k == n && Greater(b[k], b[n]) then (b[k := b[n]][n := t], n)
    else (b[k := t], k)
  }

  /** `sink(i)` with the single-child fix-up comparing the saved key. */
  function Sink(a: seq<int>, n: int, i: int): (r: (seq<int>, int))
    requires 1 <= i < |a| && n < |a|
    ensures |r.0| == |a|
  {
    var t := a[i];
    var (b, k) := SinkLoop(a, n, i, t);
    if 2 * k == n && Greater(t, b[n]) then (b[k := b[n]][n := t], n)
    else (b[k := t], k)
  }


  /** Every sink loop is a chain of half-exchanges: with the saved key
      written into the final hole, the contents are those of the start. */
  lemma {:induction false} SinkLoopContents(a: seq<int>, n: int, i: int, t: int)
    requires 1 <= i <= n < |a|
    ensures var (b, k) := SinkLoop(a, n, i, t);
      Contents(b[k := t], n) == Contents(a[i := t], n)
    decreases n - i
  {
    if 2 * i + 1 <= n {
      var j := if Greater(a[2 * i + 1], a[2 * i]) then 2 * i else 2 * i + 1;
      if !Greater(a[j], t) {
        var c := a[i := t];
        var a' := a[i := a[j]];
        assert a'[j := t] == c[i := c[j]][j := c[i]];
        SwapContents(c, n, i, j);
        SinkLoopContents(a', n, j, t);
      }
    }
  }

  /** Both versions of sink permute slots 1..n. */
  lemma SinkContents(a: seq<int>, n: int, i: int)
    requires 1 <= i <= n < |a|
    ensures Contents(Sink(a, n, i).0, n) == Contents(a, n)
    ensures Contents(SinkAsWritten(a, n, i).0, n) == Contents(a, n)
  {
    var t := a[i];
    assert a[i := t] == a;
    SinkLoopContents(a, n, i, t);
    var (b, k) := SinkLoop(a, n, i, t);
    if 2 * k == n {
      var c := b[k := t];
      assert b[k := b[n]][n := t] == c[k := c[n]][n := c[k]];
      SwapContents(c, n, k, n);
    }
  }

  /** One half-exchange of the sink loop moves the hole from `i` down to
      its smaller child `j` and keeps the loop invariant. */
  lemma SinkStep(a: seq<int>, n: int, lo: int, i: int, j: int, t: int)
    requires 1 <= lo <= i && 2 * i + 1 <= n < |a|
    requires i > lo ==> i / 2 >= lo
    requires j == 2 * i || j == 2 * i + 1
    requires a[j] <= a[2 * i] && a[j] <= a[2 * i + 1] && a[j] <= t
    requires OrderedExcept(a[i := t], n, lo, i)
    requires Bridged(a[i := t], n, lo, i)
    ensures OrderedExcept(a[i := a[j]][j := t], n, lo, j)
    ensures Bridged(a[i := a[j]][j := t], n, lo, j)
  {
    var c := a[i := t];
    var d := a[i := a[j]][j := t];
    forall k | 2 <= k <= n && k / 2 >= lo && k / 2 != j
      ensures d[k / 2] <= d[k]
    {
      if k == i {
        assert c[k / 2] <= c[j];
      } else if k == j {
        assert d[k / 2] == a[j];
      } else if k / 2 == i {
        assert d[k / 2] == a[j] && d[k] == a[k];
      } else {
        assert c[k / 2] <= c[k];
      }
    }
    forall k | 2 <= k <= n && k / 2 == j
      ensures d[j / 2] <= d[k]
    {
      assert c[k / 2] <= c[k];
    }
  }

  /** The sink loop's invariant with the hole at `i`: with the saved key
      written into the hole, heap order holds everywhere from `lo` on but on
      the edges leaving the hole, and the hole's parent is no larger than the
      hole's children. */
  ghost predicate SinkInv(a: seq<int>, n: int, lo: int, i: int, t: int)
  {
    && 1 <= lo <= i <= n < |a|
    && (i > lo ==> i / 2 >= lo)
    && OrderedExcept(a[i := t], n, lo, i)
    && Bridged(a[i := t], n, lo, i)
  }

  /** One half-exchange keeps SinkInv, with the hole one level down. */
  lemma SinkAdvance(a: seq<int>, n: int, lo: int, i: int, j: int, t: int)
    requires SinkInv(a, n, lo, i, t) && 2 * i + 1 <= n
    requires j == 2 * i || j == 2 * i + 1
    requires a[j] <= a[2 * i] && a[j] <= a[2 * i + 1] && a[j] <= t
    ensures SinkInv(a[i := a[j]], n, lo, j, t)
  {
    assert j / 2 == i;
    SinkStep(a, n, lo, i, j, t);
  }

  /** Induction over the sink loop: a property of (array, hole) that every
      half-exchange keeps holds where the loop stops. */
  lemma {:induction false} SinkLoopInduct(a: seq<int>, n: int, i: int, t: int, inv: (seq<int>, int) -> bool)
    requires 1 <= i < |a| && n < |a| && inv(a, i)
    requires forall b: seq<int>, k: int :: |b| == |a| && 1 <= k && 2 * k + 1 <= n && inv(b, k) ==>
      var j := if Greater(b[2 * k + 1], b[2 * k]) then 2 * k else 2 * k + 1;
      !Greater(b[j], t) ==> inv(b[k := b[j]], j)
    ensures inv(SinkLoop(a, n, i, t).0, SinkLoop(a, n, i, t).1)
    decreases n - i
  {
    if 2 * i + 1 <= n {
      var j := if Greater(a[2 * i + 1], a[2 * i]) then 2 * i else 2 * i + 1;
      if !Greater(a[j], t) {
        SinkLoopInduct(a[i := a[j]], n, j, t, inv);
      }
    }
  }

  /** Where the sink loop stops with two children, the key is no larger than
      either of them. */
  lemma {:induction false} SinkLoopStops(a: seq<int>, n: int, i: int, t: int)
    requires 1 <= i < |a| && n < |a|
    ensures var r := SinkLoop(a, n, i, t);
      2 * r.1 + 1 <= n ==> t <= r.0[2 * r.1] && t <= r.0[2 * r.1 + 1]
    decreases n - i
  {
    if 2 * i + 1 <= n {
      var j := if Greater(a[2 * i + 1], a[2 * i]) then 2 * i else 2 * i + 1;
      if !Greater(a[j], t) {
        SinkLoopStops(a[i := a[j]], n, j, t);
      }
    }
  }

  /** The sink loop keeps SinkInv; when it stops with two children, neither
      is smaller than the key. */
  lemma SinkLoopKeeps(a: seq<int>, n: int, lo: int, i: int, t: int)
    requires SinkInv(a, n, lo, i, t)
    ensures var r := SinkLoop(a, n, i, t);
      && SinkInv(r.0, n, lo, r.1, t)
      && (2 * r.1 + 1 <= n ==> t <= r.0[2 * r.1] && t <= r.0[2 * r.1 + 1])
  {
    var inv := (b: seq<int>, k: int) => SinkInv(b, n, lo, k, t);
    forall b: seq<int>, k: int | |b| == |a| && 1 <= k && 2 * k + 1 <= n && inv(b, k)
      ensures var j := if Greater(b[2 * k + 1], b[2 * k]) then 2 * k else 2 * k + 1;
        !Greater(b[j], t) ==> inv(b[k := b[j]], j)
    {
      var j := if Greater(b[2 * k + 1], b[2 * k]) then 2 * k else 2 * k + 1;
      if !Greater(b[j], t) {
        SinkAdvance(b, n, lo, k, j, t);
      }
    }
    SinkLoopInduct(a, n, i, t, inv);
    SinkLoopStops(a, n, i, t);
  }

  /** After the loop, the corrected single-child step puts the saved key in
      its place and heap order holds from `lo` on. */
  lemma SinkFinish(b: seq<int>, n: int, lo: int, k: int, t: int)
    requires SinkInv(b, n, lo, k, t)
    requires 2 * k + 1 <= n ==> t <= b[2 * k] && t <= b[2 * k + 1]
    ensures OrderedFrom(if 2 * k == n && Greater(t, b[n]) then b[k := b[n]][n := t] else b[k := t], n, lo)
  {
    var c := b[k := t];
    if 2 * k == n && Greater(t, b[n]) {
      var d := b[k := b[n]][n := t];
      forall m | 2 <= m <= n && m / 2 >= lo
        ensures d[m / 2] <= d[m]
      {
        if m == n {
        } else if m == k {
          assert c[k / 2] <= c[n];
        } else {
          assert c[m / 2] <= c[m];
        }
      }
    }
  }

  /** The corrected sink restores heap order from `lo` on when the only
      disorder sits on the edges leaving position `i`, and returns where the
      sunk key came to rest. */
  lemma SinkOrders(a: seq<int>, n: int, lo: int, i: int)
    requires 1 <= lo <= i <= n < |a|
    requires i > lo ==> i / 2 >= lo
    requires OrderedExcept(a, n, lo, i) && Bridged(a, n, lo, i)
    ensures var (b, k) := Sink(a, n, i);
      OrderedFrom(b, n, lo) && i <= k <= n && b[k] == a[i]
  {
    var t := a[i];
    assert a[i := t] == a;
    assert SinkInv(a, n, lo, i, t);
    SinkLoopKeeps(a, n, lo, i, t);
    var r := SinkLoop(a, n, i, t);
    SinkFinish(r.0, n, lo, r.1, t);
  }

  // ---------------------------------------------------------------------
  // swim

  /** The loop of `swim(i)` as written: it compares the parent with the
      current `pq[i]`, which after the first half-exchange is the copy of
      the parent just moved down rather than the saved key. */
  function SwimLoopAsWritten(a: seq<int>, i: int): (r: (seq<int>, int))
    requires 1 <= i < |a|
    ensures |r.0| == |a| && 1 <= r.1 <= i
    decreases i
  {
    if i > 1 && Greater(a[i / 2], a[i]) then SwimLoopAsWritten(a[i := a[i / 2]], i / 2)
    else (a, i)
  }

  /** `swim(i)` as written. */
  function SwimAsWritten(a: seq<int>, i: int): (r: (seq<int>, int))
    requires 1 <= i < |a|
    ensures |r.0| == |a|
  {
    var (b, k) := SwimLoopAsWritten(a, i);
    (b[k := a[i]], k)
  }

  /** The loop of `swim(i)` comparing the parent with the saved key `t`. */
  function SwimLoop(a: seq<int>, i: int, t: int): (r: (seq<int>, int))
    requires 1 <= i < |a|
    ensures |r.0| == |a| && 1 <= r.1 <= i
    decreases i
  {
    if i > 1 && Greater(a[i / 2], t) then SwimLoop(a[i := a[i / 2]], i / 2, t)
    else (a, i)
  }

  /** `swim(i)` with the loop comparing the saved key. */
  function Swim(a: seq<int>, i: int): (r: (seq<int>, int))
    requires 1 <= i < |a|
    ensures |r.0| == |a|
  {
    var (b, k) := SwimLoop(a, i, a[i]);
    (b[k := a[i]], k)
  }

  /** The as-written swim loop is a chain of half-exchanges too: whatever
      key is written into the final hole, the contents are those of the
      start with that key in the starting hole. */
  lemma {:induction false} SwimLoopAsWrittenContents(a: seq<int>, n: int, i: int, t: int)
    requires 1 <= i <= n < |a|
    ensures var (b, k) := SwimLoopAsWritten(a, i);
      Contents(b[k := t], n) == Contents(a[i := t], n)
    decreases i
  {
    if i > 1 && Greater(a[i / 2], a[i]) {
      var p := i / 2;
      var c := a[i := t];
      var a' := a[i := a[p]];
      assert a'[p := t] == c[i := c[p]][p := c[i]];
      SwapContents(c, n, i, p);
      SwimLoopAsWrittenContents(a', n, p, t);
    }
  }

  /** The corrected swim loop is a chain of half-exchanges: with the saved
      key written into the final hole, the contents are those of the start. */
  lemma {:induction false} SwimLoopContents(a: seq<int>, n: int, i: int, t: int)
    requires 1 <= i <= n < |a|
    ensures var r := SwimLoop(a, i, t);
      Contents(r.0[r.1 := t], n) == Contents(a[i := t], n)
    decreases i
  {
    if i > 1 && Greater(a[i / 2], t) {
      var p := i / 2;
      var c := a[i := t];
      var a' := a[i := a[p]];
      assert a'[p := t] == c[i := c[p]][p := c[i]];
      SwapContents(c, n, i, p);
      SwimLoopContents(a', n, p, t);
    }
  }

  /** One half-exchange of the swim loop moves the hole from `i` up to its
      parent `p`, whose key is greater than the saved key `t`: the edges not
      touching the hole stay ordered, the new hole is bridged, and its
      children are no smaller than `t`. */
  lemma SwimStep(a: seq<int>, n: int, i: int, t: int)
    requires 2 <= i <= n < |a| && a[i / 2] > t
    requires OrderedAround(a[i := t], n, i) && Bridged(a[i := t], n, 1, i)
    ensures OrderedAround(a[i := a[i / 2]][i / 2 := t], n, i / 2)
    ensures Bridged(a[i := a[i / 2]][i / 2 := t], n, 1, i / 2)
    ensures forall k :: 2 <= k <= n && k / 2 == i / 2 ==> t <= a[i := a[i / 2]][k]
  {
    var p := i / 2;
    var c := a[i := t];
    var d := a[i := a[p]][p := t];
    forall k | 2 <= k <= n && k != p && k / 2 != p
      ensures d[k / 2] <= d[k]
    {
      if k / 2 == i {
        assert c[i / 2] <= c[k];
      } else {
        assert c[k / 2] <= c[k];
      }
    }
    forall k | 2 <= k <= n && k / 2 == p
      ensures t <= a[i := a[p]][k]
    {
      if k != i {
        assert c[k / 2] <= c[k];
      }
    }
    if p > 1 {
      forall k | 2 <= k <= n && k / 2 == p
        ensures d[p / 2] <= d[k]
      {
        assert c[p / 2] <= c[p];
        if k != i {
          assert c[k / 2] <= c[k];
        }
      }
    }
  }

  /** The corrected swim loop keeps its invariant: with the saved key in
      the hole, every edge not touching the hole is ordered and the hole's
      parent is no larger than its children. It stops at the root or below
      a parent not greater than the key; once the hole has moved, the
      hole's children are no smaller than the key, and if it has not moved
      nothing changed. */
  lemma {:induction false} SwimLoopKeeps(a: seq<int>, n: int, i: int, t: int, below: bool)
    requires 1 <= i <= n < |a|
    requires OrderedAround(a[i := t], n, i) && Bridged(a[i := t], n, 1, i)
    requires below ==> forall k :: 2 <= k <= n && k / 2 == i ==> t <= a[k]
    ensures var r := SwimLoop(a, i, t);
      && OrderedAround(r.0[r.1 := t], n, r.1) && Bridged(r.0[r.1 := t], n, 1, r.1)
      && (r.1 > 1 ==> r.0[r.1 / 2] <= t)
      && (r.1 == i ==> r.0 == a)
      && (below || r.1 < i ==> forall k :: 2 <= k <= n && k / 2 == r.1 ==> t <= r.0[k])
    decreases i
  {
    if i > 1 && Greater(a[i / 2], t) {
      assert SwimLoop(a, i, t) == SwimLoop(a[i := a[i / 2]], i / 2, t);
      SwimStep(a, n, i, t);
      SwimLoopKeeps(a[i := a[i / 2]], n, i / 2, t, true);
    } else {
      assert SwimLoop(a, i, t) == (a, i);
    }
  }

  /** The corrected swim restores heap order when the only disorder is on
      the edge entering position `i`, keeping the contents. */
  lemma SwimOrders(a: seq<int>, n: int, i: int)
    requires 1 <= i <= n < |a|
    requires OrderedBut(a, n, i) && Bridged(a, n, 1, i)
    ensures var (b, k) := Swim(a, i);
      && OrderedFrom(b, n, 1)
      && Contents(b, n) == Contents(a, n)
      && 1 <= k <= i && b[k] == a[i]
  {
    assert a[i := a[i]] == a;
    SwimLoopKeeps(a, n, i, a[i], false);
    SwimLoopContents(a, n, i, a[i]);
  }

  /** Swimming and then sinking the key at `i`, as `change` does, restores
      heap order when the only disorder is on the edges touching `i` and
      the parent of `i` is no larger than its children. */
  lemma Reposition(a: seq<int>, n: int, i: int)
    requires 1 <= i <= n < |a|
    requires OrderedAround(a, n, i) && Bridged(a, n, 1, i)
    ensures var (b, k) := Swim(a, i);
      && 1 <= k <= i && b[k] == a[i]
      && Contents(b, n) == Contents(a, n)
      && OrderedFrom(Sink(b, n, k).0, n, 1)
      && Contents(Sink(b, n, k).0, n) == Contents(a, n)
  {
    var t := a[i];
    assert a[i := t] == a;
    SwimLoopKeeps(a, n, i, t, false);
    SwimLoopContents(a, n, i, t);
    var (b, k) := Swim(a, i);
    SinkOrders(b, n, 1, k);
    SinkContents(b, n, k);
  }

  /** The as-written swim permutes slots 1..n. */
  lemma SwimAsWrittenContents(a: seq<int>, n: int, i: int)
    requires 1 <= i <= n < |a|
    ensures Contents(SwimAsWritten(a, i).0, n) == Contents(a, n)
  {
    assert a[i := a[i]] == a;
    SwimLoopAsWrittenContents(a, n, i, a[i]);
  }

  /** In a heap the root holds the least key. */
  lemma {:induction false} RootLeast(a: seq<int>, n: int, c: int)
    requires 1 <= c <= n < |a|
    requires OrderedFrom(a, n, 1)
    ensures a[1] <= a[c]
    decreases c
  {
    if c > 1 {
      RootLeast(a, n, c / 2);
    }
  }

  lemma RootLeastAll(a: seq<int>, n: int)
    requires 1 <= n < |a|
    ensures OrderedFrom(a, n, 1) ==> forall c :: 1 <= c <= n ==> a[1] <= a[c]
  {
    if OrderedFrom(a, n, 1) {
      forall c | 1 <= c <= n ensures a[1] <= a[c] {
        RootLeast(a, n, c);
      }
    }
  }

  // ---------------------------------------------------------------------
  // Storage

  /** `resize(a, m)`: a new array of length `m` holding the common prefix. */
  function Resize(a: seq<int>, m: nat): (r: seq<int>)
    ensures |r| == m
    ensures forall k :: 0 <= k < |a| && k < m ==> r[k] == a[k]
  {
    seq(m, k requires 0 <= k < m => if k < |a| then a[k] else Vacant)
  }

  /** Resizing beyond the last occupied slot keeps the heap and its keys. */
  lemma ResizeKeeps(a: seq<int>, n: int, m: nat)
    requires 0 <= n < |a| && n < m
    ensures Contents(Resize(a, m), n) == Contents(a, n)
    ensures OrderedFrom(a, n, 1) ==> OrderedFrom(Resize(a, m), n, 1)
  {
    assert Resize(a, m)[1..n + 1] == a[1..n + 1];
  }

  /** `new MinPQ(capacity)`: an empty queue with room for `capacity` keys. */
  function WithCapacity(capacity: nat): (q: PQ)
    ensures IsHeap(q) && q.n == 0 && |q.pq| == capacity + 1
  {
    PQ(seq(capacity + 1, _ => Vacant), 0)
  }

  /** `isEmpty()`. */
  function IsEmpty(q: PQ): (b: bool)
    requires Valid(q)
    ensures b <==> Keys(q) == multiset{}
  {
    q.n == 0
  }

  /** `size()`: the number of keys held. */
  function Size(q: PQ): (s: int)
    requires Valid(q)
    ensures s == |Keys(q)|
  {
    q.n
  }

  /** `max()`: despite its name, the key at the root, which in a heap is the
      least key; an empty queue underflows. */
  function Max(q: PQ): (r: Result<int>)
    requires Valid(q)
    ensures r.Underflow? <==> q.n == 0
    ensures r.Ok? ==> r.value in Keys(q)
    ensures r.Ok? && IsHeap(q) ==> forall c :: 1 <= c <= q.n ==> r.value <= q.pq[c]
  {
    if q.n == 0 then Underflow
    else
      assert q.pq[1..q.n + 1][0] == q.pq[1];
      RootLeastAll(q.pq, q.n);
      Ok(q.pq[1])
  }

  // ---------------------------------------------------------------------
  // insert

  /** The growth test of insert, `N >= pq.length - 1`: a full array is
      doubled, keeping its keys and their order. */
  function Roomy(a: seq<int>, n: int): (r: seq<int>)
    requires 0 <= n < |a|
    ensures n + 1 < |r|
    ensures Contents(r, n) == Contents(a, n)
    ensures OrderedFrom(a, n, 1) ==> OrderedFrom(r, n, 1)
  {
    ResizeKeeps(a, n, 2 * |a|);
    if n >= |a| - 1 then Resize(a, 2 * |a|) else a
  }

  /** Storing `v` in slot n + 1 adds it to the keys. */
  lemma Append(a: seq<int>, n: int, v: int)
    requires 0 <= n && n + 1 < |a|
    ensures Contents(a[n + 1 := v], n + 1) == Contents(a, n) + multiset{v}
  {
    assert a[n + 1 := v][1..n + 2] == a[1..n + 1] + [v];
  }

  /** `pq[++N] = v; swim(N)` as written, on an array with a free slot. */
  function SwimInAsWritten(a: seq<int>, n: int, v: int): (r: seq<int>)
    requires 0 <= n && n + 1 < |a|
    ensures |r| == |a|
    ensures Contents(r, n + 1) == Contents(a, n) + multiset{v}
  {
    Append(a, n, v);
    SwimAsWrittenContents(a[n + 1 := v], n + 1, n + 1);
    SwimAsWritten(a[n + 1 := v], n + 1).0
  }

  /** `pq[++N] = v; swim(N)` with the corrected swim: a heap stays a heap. */
  function SwimIn(a: seq<int>, n: int, v: int): (r: seq<int>)
    requires 0 <= n && n + 1 < |a|
    requires OrderedFrom(a, n, 1)
    ensures |r| == |a|
    ensures OrderedFrom(r, n + 1, 1)
    ensures Contents(r, n + 1) == Contents(a, n) + multiset{v}
  {
    Append(a, n, v);
    SwimOrders(a[n + 1 := v], n + 1, n + 1);
    Swim(a[n + 1 := v], n + 1).0
  }

  /** `insert(v)` as written: the key is stored at `++N` before the array
      is grown, so on a full array the store is out of bounds; otherwise
      the keys gain `v` (the order is what the findings are about). */
  function InsertAsWritten(q: PQ, v: int): (r: Result<PQ>)
    requires Valid(q)
    ensures r.OutOfBounds? <==> q.n + 1 >= |q.pq|
    ensures r.Ok? ==> Valid(r.value) && r.value.n == q.n + 1
    ensures r.Ok? ==> Keys(r.value) == Keys(q) + multiset{v}
  {
    if q.n + 1 >= |q.pq| then OutOfBounds
    else Ok(PQ(Roomy(SwimInAsWritten(q.pq, q.n, v), q.n + 1), q.n + 1))
  }

  /** `insert(v)` growing a full array before the store and swimming with
      the saved key: it always succeeds, keeps the heap, and adds `v`. */
  function Insert(q: PQ, v: int): (r: PQ)
    requires IsHeap(q)
    ensures IsHeap(r) && r.n == q.n + 1
    ensures Keys(r) == Keys(q) + multiset{v}
  {
    PQ(Roomy(SwimIn(Roomy(q.pq, q.n), q.n, v), q.n + 1), q.n + 1)
  }

  // ---------------------------------------------------------------------
  // delMin

  /** Moving the last key to the root and vacating its slot removes the
      root's key from slots 1..n. */
  lemma RemoveRoot(a: seq<int>, n: int)
    requires 1 <= n < |a|
    ensures Contents(a[1 := a[n]][n := Vacant], n - 1) + multiset{a[1]} == Contents(a, n)
  {
    var a' := a[1 := a[n]][n := Vacant];
    if n > 1 {
      assert a'[1..n] == [a[n]] + a[2..n];
      assert a[1..n + 1] == [a[1]] + a[2..n] + [a[n]];
    }
  }

  /** `pq[1] = pq[N]; pq[N--] = null; sink(1)` as written: the root's key
      leaves the heap. */
  function SinkOutAsWritten(a: seq<int>, n: int): (r: seq<int>)
    requires 1 <= n < |a|
    ensures |r| == |a|
    ensures Contents(r, n - 1) + multiset{a[1]} == Contents(a, n)
  {
    var a' := a[1 := a[n]][n := Vacant];
    RemoveRoot(a, n);
    if n - 1 >= 1 then SinkContents(a', n - 1, 1); SinkAsWritten(a', n - 1, 1).0
    else SinkAsWritten(a', n - 1, 1).0
  }

  /** The same with the corrected sink: a heap stays a heap. */
  function SinkOut(a: seq<int>, n: int): (r: seq<int>)
    requires 1 <= n < |a|
    requires OrderedFrom(a, n, 1)
    ensures |r| == |a|
    ensures OrderedFrom(r, n - 1, 1)
    ensures Contents(r, n - 1) + multiset{a[1]} == Contents(a, n)
  {
    var a' := a[1 := a[n]][n := Vacant];
    RemoveRoot(a, n);
    if n - 1 >= 1 then
      SinkContents(a', n - 1, 1);
      SinkOrders(a', n - 1, 1, 1);
      Sink(a', n - 1, 1).0
    else Sink(a', n - 1, 1).0
  }

  /** The shrink test of delMin, `N == pq.length / 4`: a quarter-full array
      is halved, keeping its keys and their order. */
  function Shrunk(a: seq<int>, n: int): (r: seq<int>)
    requires 0 <= n && n + 1 < |a|
    ensures n < |r|
    ensures Contents(r, n) == Contents(a, n)
    ensures OrderedFrom(a, n, 1) ==> OrderedFrom(r, n, 1)
  {
    if n == |a| / 4 then ResizeKeeps(a, n, |a| / 2); Resize(a, |a| / 2) else a
  }

  /** `delMin()` as written: underflows on an empty queue; otherwise it
      returns the root's key and removes it from the keys. */
  function DelMinAsWritten(q: PQ): (r: Result<(int, PQ)>)
    requires Valid(q)
    ensures r.Underflow? <==> q.n == 0
    ensures r.Ok? ==>
      && Valid(r.value.1) && r.value.1.n == q.n - 1 && r.value.0 == q.pq[1]
      && Keys(r.value.1) + multiset{r.value.0} == Keys(q)
  {
    if q.n == 0 then Underflow else Ok((q.pq[1], TakeRootAsWritten(q)))
  }

  /** The queue after delMin's exchange, sink as written and shrink: the
      keys are the old ones less the root's. */
  function TakeRootAsWritten(q: PQ): (r: PQ)
    requires Valid(q) && q.n >= 1
    ensures Valid(r) && r.n == q.n - 1
    ensures Keys(r) + multiset{q.pq[1]} == Keys(q)
  {
    var a := SinkOutAsWritten(q.pq, q.n);
    var b := Shrunk(a, q.n - 1);
    SameKeysLess(q.pq, a, b, q.n);
    PQ(b, q.n - 1)
  }

  /** Keys that lost the root and were then copied keep that loss. */
  lemma SameKeysLess(p: seq<int>, a: seq<int>, b: seq<int>, n: int)
    requires 1 <= n < |p| && n - 1 < |a| && n - 1 < |b|
    requires Contents(a, n - 1) + multiset{p[1]} == Contents(p, n)
    requires Contents(b, n - 1) == Contents(a, n - 1)
    ensures Keys(PQ(b, n - 1)) + multiset{p[1]} == Keys(PQ(p, n))
  {
  }

  /** `delMin()` with the corrected sink: on a heap it returns a least key,
      removes exactly that key, and leaves a heap. */
  function DelMin(q: PQ): (r: Result<(int, PQ)>)
    requires IsHeap(q)
    ensures r.Underflow? <==> q.n == 0
    ensures r.Ok? ==>
      && IsHeap(r.value.1) && r.value.1.n == q.n - 1
      && Keys(r.value.1) + multiset{r.value.0} == Keys(q)
      && forall c :: 1 <= c <= q.n ==> r.value.0 <= q.pq[c]
  {
    if q.n == 0 then Underflow
    else
      RootLeastAll(q.pq, q.n);
      Ok((q.pq[1], PQ(Shrunk(SinkOut(q.pq, q.n), q.n - 1), q.n - 1)))
  }

  // ---------------------------------------------------------------------
  // Construction from a collection

  /** The `for (i = start; i >= 1; i--) sink(i)` loop, as written. */
  function HeapifyAsWritten(a: seq<int>, n: int, i: int): (r: seq<int>)
    requires 0 <= i < |a| && n < |a|
    ensures |r| == |a|
    decreases i
  {
    if i < 1 then a else HeapifyAsWritten(SinkAsWritten(a, n, i).0, n, i - 1)
  }

  /** The same loop with the corrected sink. */
  function Heapify(a: seq<int>, n: int, i: int): (r: seq<int>)
    requires 0 <= i < |a| && n < |a|
    ensures |r| == |a|
    decreases i
  {
    if i < 1 then a else Heapify(Sink(a, n, i).0, n, i - 1)
  }

  /** Sinking every position from `i` down to the root permutes the keys;
      with `N` still 0, as the array constructor has it, it changes nothing. */
  lemma {:induction false} HeapifyAsWrittenContents(a: seq<int>, n: int, i: int)
    requires 0 <= i <= n < |a|
    ensures Contents(HeapifyAsWritten(a, n, i), n) == Contents(a, n)
    decreases i
  {
    if i >= 1 {
      SinkContents(a, n, i);
      HeapifyAsWrittenContents(SinkAsWritten(a, n, i).0, n, i - 1);
    }
  }

  lemma {:induction false} HeapifyAsWrittenIdle(a: seq<int>, i: int)
    requires 0 <= i < |a|
    ensures HeapifyAsWritten(a, 0, i) == a
    decreases i
  {
    if i >= 1 {
      var t := a[i];
      assert SinkLoop(a, 0, i, t) == (a, i);
      assert a[i := t] == a;
      HeapifyAsWrittenIdle(a, i - 1);
    }
  }

  /** With the edges below `i` ordered, sinking `i`, `i - 1`, ..., 1 orders
      the whole heap and keeps its keys. */
  lemma {:induction false} HeapifyOrders(a: seq<int>, n: int, i: int)
    requires 0 <= i <= n < |a|
    requires OrderedFrom(a, n, i + 1)
    ensures OrderedFrom(Heapify(a, n, i), n, 1)
    ensures Contents(Heapify(a, n, i), n) == Contents(a, n)
    decreases i
  {
    if i >= 1 {
      SinkOrders(a, n, i, i);
      SinkContents(a, n, i);
      HeapifyOrders(Sink(a, n, i).0, n, i - 1);
    }
  }

  /** Positions past half the heap have no children. */
  lemma LeavesOrdered(a: seq<int>, n: int, lo: int)
    requires n < |a| && n < 2 * lo
    ensures OrderedFrom(a, n, lo)
  {
  }

  /** `new MinPQ(Key[] a)` as written: the sinks run while `N` is still 0,
      so they change nothing, and `N` is then the whole array: the keys are
      those of `a`, in the order given. */
  function FromArrayAsWritten(a: seq<int>): (q: PQ)
    ensures Valid(q) && q.n == |a| && |q.pq| == |a| + 1
    ensures q.pq[1..] == a && Keys(q) == multiset(a)
  {
    var pq := [Vacant] + a;
    HeapifyAsWrittenIdle(pq, |pq| / 2);
    assert pq[1..] == a && pq[1..|pq|] == a;
    PQ(HeapifyAsWritten(pq, 0, |pq| / 2), |pq| - 1)
  }

  /** `new MinPQ(Key[] a)` with `N` set before the sinks: a heap holding
      exactly the keys of `a`. */
  function FromArray(a: seq<int>): (q: PQ)
    ensures IsHeap(q) && q.n == |a| && Keys(q) == multiset(a)
  {
    var pq := [Vacant] + a;
    var n := |a|;
    LeavesOrdered(pq, n, |pq| / 2 + 1);
    HeapifyOrders(pq, n, |pq| / 2);
    assert pq[1..n + 1] == a;
    PQ(Heapify(pq, n, |pq| / 2), n)
  }

  /** The `for (Key k : a)` loop of the iterable constructor: stores each key
      at `j++`, doubling the array first when `j` has reached its end. */
  function Fill(a: seq<int>, j: int, xs: seq<int>): (r: (seq<int>, int))
    requires 1 <= j <= |a|
    ensures r.1 == j + |xs| && r.1 <= |r.0|
    ensures r.0[1..r.1] == a[1..j] + xs
    decreases |xs|
  {
    if xs == [] then (a, j)
    else
      var b := if j == |a| then Resize(a, 2 * |a|) else a;
      var b' := b[j := xs[0]];
      assert b'[1..j + 1] == a[1..j] + [xs[0]];
      var r := Fill(b', j + 1, xs[1..]);
      assert a[1..j] + [xs[0]] + xs[1..] == a[1..j] + xs;
      r
  }

  /** `new MinPQ(Iterable a)` as written: the keys are those of `a`; the
      array may be left exactly full. */
  function FromIterableAsWritten(xs: seq<int>): (q: PQ)
    ensures Valid(q) && q.n == |xs| && Keys(q) == multiset(xs)
  {
    var (pq, j) := Fill(seq(4, _ => Vacant), 1, xs);
    HeapifyAsWrittenContents(pq, j - 1, j / 2);
    PQ(HeapifyAsWritten(pq, j - 1, j / 2), j - 1)
  }

  /** `new MinPQ(Iterable a)` with the corrected sink: a heap holding
      exactly the keys of `a`. */
  function FromIterable(xs: seq<int>): (q: PQ)
    ensures IsHeap(q) && q.n == |xs| && Keys(q) == multiset(xs)
  {
    var (pq, j) := Fill(seq(4, _ => Vacant), 1, xs);
    LeavesOrdered(pq, j - 1, j / 2 + 1);
    HeapifyOrders(pq, j - 1, j / 2);
    PQ(Heapify(pq, j - 1, j / 2), j - 1)
  }

  // ---------------------------------------------------------------------
  // Findings: the source as written against the corrected definitions

  lemma SwimOneLevelStore()
    ensures SwimInAsWritten([Vacant, 5, 6, 7, Vacant], 3, 4) == [Vacant, 5, 4, 7, 6]
  {
    var a := [Vacant, 5, 6, 7, Vacant][4 := 4];
    var a' := a[4 := 6];
    assert SwimLoopAsWritten(a, 4) == SwimLoopAsWritten(a', 2) == (a', 2);
  }

  /** Swim moves a key at most one level: inserting 4 into the heap 5, 6, 7
      leaves 4 below 5. */
  lemma SwimOneLevel()
    ensures var r := InsertAsWritten(PQ([Vacant, 5, 6, 7, Vacant], 3), 4);
      r.Ok? && r.value.pq[1..5] == [5, 4, 7, 6] && !IsHeap(r.value)
  {
    SwimOneLevelStore();
    var b := [Vacant, 5, 4, 7, 6];
    var r := InsertAsWritten(PQ([Vacant, 5, 6, 7, Vacant], 3), 4);
    assert r.value.pq == Roomy(b, 4);
    var c := Resize(b, 10);
    assert c[1] == 5 && c[2] == 4 && c[3] == 7 && c[4] == 6;
    assert c[1..5] == [5, 4, 7, 6];
    assert c[2 / 2] > c[2];
  }

  /** The single-child step of sink compares the stale copy: deleting the
      minimum of the heap 10, 11, 19, 13, 18 leaves 18 above 13. */
  lemma SinkStaleCompare()
    ensures IsHeap(PQ([Vacant, 10, 11, 19, 13, 18, Vacant, Vacant], 5))
    ensures var r := DelMinAsWritten(PQ([Vacant, 10, 11, 19, 13, 18, Vacant, Vacant], 5));
      r.Ok? && r.value.1.pq[1..5] == [11, 18, 19, 13] && !IsHeap(r.value.1)
  {
    var q := [Vacant, 10, 11, 19, 13, 18, Vacant, Vacant];
    var b := [Vacant, 11, 18, 19, 13, Vacant, Vacant, Vacant];
    StaleHeapOrdered();
    StaleSinkOut();
    assert Shrunk(b, 4) == b;
    assert TakeRootAsWritten(PQ(q, 5)) == PQ(b, 4);
    var r := DelMinAsWritten(PQ(q, 5));
    assert r.value.1 == PQ(b, 4);
    assert b[4 / 2] > b[4];
  }

  lemma StaleHeapOrdered()
    ensures IsHeap(PQ([Vacant, 10, 11, 19, 13, 18, Vacant, Vacant], 5))
  {
    var q := [Vacant, 10, 11, 19, 13, 18, Vacant, Vacant];
    forall c | 2 <= c <= 5 && c / 2 >= 1
      ensures q[c / 2] <= q[c]
    {
      assert c / 2 == 1 || c / 2 == 2;
    }
  }

  /** The exchange and the sink of delMin on the heap 10, 11, 19, 13, 18. */
  lemma StaleSinkOut()
    ensures SinkOutAsWritten([Vacant, 10, 11, 19, 13, 18, Vacant, Vacant], 5)
      == [Vacant, 11, 18, 19, 13, Vacant, Vacant, Vacant]
  {
    var q := [Vacant, 10, 11, 19, 13, 18, Vacant, Vacant];
    var a := q[1 := 18][5 := Vacant];
    var a' := a[1 := 11];
    assert SinkLoop(a, 4, 1, 18) == SinkLoop(a', 4, 2, 18) == (a', 2);
    assert SinkAsWritten(a, 4, 1).0 == [Vacant, 11, 18, 19, 13, Vacant, Vacant, Vacant];
  }

  /** The array constructor does not heapify: from [2, 1] it keeps 2 above 1. */
  lemma FromArrayUnordered()
    ensures !IsHeap(FromArrayAsWritten([2, 1]))
  {
    var q := FromArrayAsWritten([2, 1]);
    assert q.pq[1..][0] == q.pq[1] && q.pq[1..][1] == q.pq[2];
    assert q.pq[2 / 2] > q.pq[2];
  }

  /** A queue built from an array is full, so its first insert stores past
      the end of the array. */
  lemma FromArrayThenInsert(a: seq<int>, v: int)
    ensures InsertAsWritten(FromArrayAsWritten(a), v).OutOfBounds?
  {
  }

  /** The iterable constructor leaves three keys in four slots, and the
      next insert stores past the end. */
  lemma FromIterableThenInsert(v: int)
    ensures InsertAsWritten(FromIterableAsWritten([1, 2, 3]), v).OutOfBounds?
  {
  }

  /** Shrinking in delMin can leave the array full: capacity 3, insert,
      insert, delMin halves the array to two slots, and the next insert
      stores past the end. */
  lemma ShrinkThenInsert()
    ensures var q1 := InsertAsWritten(WithCapacity(3), 1);
      && q1.Ok?
      && var q2 := InsertAsWritten(q1.value, 2);
      && q2.Ok?
      && var d := DelMinAsWritten(q2.value);
      && d.Ok?
      && InsertAsWritten(d.value.1, 3).OutOfBounds?
  {
  }
}
