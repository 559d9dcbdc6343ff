/** IndexMinPQ: an indexed min-priority queue. Key indices 0..maxN carry
    items; `pq[1..N]` is a binary heap of key indices ordered by their
    items, and `qp` is its reverse index: `qp[k]` is the heap slot of key
    `k`, or -1 when `k` is not in the queue. Items are integers (Comparable
    in the source).

    The loops compare items exactly as the value heap of MinPQ does, so the
    heap-order proofs are those of MinPQ applied to `Vals(items, pq)`; the
    bookkeeping of `qp` is proved here. Members whose name ends in
    `AsWritten` follow the source, defects included. */
module IndexMinPQ {
  import MinPQ

  /** The reverse-index entry of a key that is not in the queue. */
  const Absent: int := -1

  datatype IPQ = IPQ(n: int, items: seq<int>, pq: seq<int>, qp: seq<int>)

  /** The three arrays have length maxN + 1 and the heap fits in them. */
  ghost predicate Shape(q: IPQ)
  {
    1 <= |q.pq| && |q.items| == |q.pq| && |q.qp| == |q.pq| && 0 <= q.n < |q.pq|
  }

  /** Every heap slot holds a key whose reverse index points back. */
  ghost predicate Positions(pq: seq<int>, qp: seq<int>, n: int)
    requires n < |pq|
  {
    forall c :: 1 <= c <= n ==> 0 <= pq[c] < |qp| && qp[pq[c]] == c
  }

  /** Every key with a reverse index sits in the heap at that slot. */
  ghost predicate Reverse(pq: seq<int>, qp: seq<int>, n: int)
    requires n < |pq|
  {
    forall k :: 0 <= k < |qp| && qp[k] != Absent ==> 1 <= qp[k] <= n && pq[qp[k]] == k
  }

  ghost predicate Valid(q: IPQ)
  {
    Shape(q) && Positions(q.pq, q.qp, q.n) && Reverse(q.pq, q.qp, q.n)
  }

  /** The items seen through the heap slots. */
  function Vals(items: seq<int>, pq: seq<int>): (v: seq<int>)
    ensures |v| == |pq|
    ensures forall c :: 0 <= c < |pq| && 0 <= pq[c] < |items| ==> v[c] == items[pq[c]]
  {
    seq(|pq|, c requires 0 <= c < |pq| => if 0 <= pq[c] < |items| then items[pq[c]] else 0)
  }

  ghost predicate IsHeap(q: IPQ)
  {
    Valid(q) && MinPQ.OrderedFrom(Vals(q.items, q.pq), q.n, 1)
  }

  /** Heap slots 1..n hold key indices. */
  ghost predicate Ranged(pq: seq<int>, n: int, m: int)
    requires n < |pq|
  {
    forall c :: 1 <= c <= n ==> 0 <= pq[c] < m
  }

  /** `contains(k)`: the reverse index is set, which in a valid queue means
      that `k` sits in some heap slot. */
  function Contains(q: IPQ, k: int): (b: bool)
    requires Shape(q) && 0 <= k < |q.qp|
    ensures Valid(q) ==> (b <==> exists c :: 1 <= c <= q.n && q.pq[c] == k)
  {
    SlotOf(q, k);
    q.qp[k] != Absent
  }

  lemma SlotOf(q: IPQ, k: int)
    requires Shape(q) && 0 <= k < |q.qp|
    ensures Valid(q) && q.qp[k] != Absent ==> q.pq[q.qp[k]] == k && 1 <= q.qp[k] <= q.n
  {
  }

  // ---------------------------------------------------------------------
  // The hole: a slot whose key has been saved in `t` while the loops move
  // other keys through it.

  /** Outside the hole `h`, slots and reverse index agree, and no slot but
      the hole holds `t`; the reverse index of `t` itself is stale. */
  ghost predicate HoleInv(pq: seq<int>, qp: seq<int>, n: int, h: int, t: int)
    requires n < |pq|
  {
    && 1 <= h <= n && 0 <= t < |qp|
    && (forall c :: 1 <= c <= n && c != h ==> 0 <= pq[c] < |qp| && qp[pq[c]] == c && pq[c] != t)
    && (forall k :: 0 <= k < |qp| && k != t && qp[k] != Absent ==>
          1 <= qp[k] <= n && qp[k] != h && pq[qp[k]] == k)
  }

  /** Saving the key of any slot of a valid queue opens a hole there. */
  lemma HoleOpen(pq: seq<int>, qp: seq<int>, n: int, i: int)
    requires n < |pq| && 1 <= i <= n
    requires Positions(pq, qp, n) && Reverse(pq, qp, n)
    ensures HoleInv(pq, qp, n, i, pq[i])
  {
    forall c | 1 <= c <= n && c != i
      ensures pq[c] != pq[i]
    {
      assert qp[pq[c]] == c && qp[pq[i]] == i;
    }
  }

  /** Moving the key of slot `j` into the hole `i`, with its reverse index,
      moves the hole to `j` and changes no key's presence. */
  lemma HoleMove(pq: seq<int>, qp: seq<int>, n: int, i: int, j: int, t: int)
    requires n < |pq| && HoleInv(pq, qp, n, i, t)
    requires 1 <= j <= n && j != i
    ensures HoleInv(pq[i := pq[j]], qp[pq[j] := i], n, j, t)
    ensures forall k :: 0 <= k < |qp| ==> (qp[pq[j] := i][k] == Absent <==> qp[k] == Absent)
  {
    var x := pq[j];
    var pq', qp' := pq[i := x], qp[x := i];
    forall c | 1 <= c <= n && c != j
      ensures 0 <= pq'[c] < |qp'| && qp'[pq'[c]] == c && pq'[c] != t
    {
      if c != i {
        assert qp[pq[c]] == c && qp[x] == j;
      }
    }
    forall k | 0 <= k < |qp'| && k != t && qp'[k] != Absent
      ensures 1 <= qp'[k] <= n && qp'[k] != j && pq'[qp'[k]] == k
    {
      if k != x {
        assert pq[qp[k]] == k;
      }
    }
  }

  /** Writing the saved key into the hole, with its reverse index, makes
      slots and reverse index agree everywhere. */
  lemma HoleClose(pq: seq<int>, qp: seq<int>, n: int, h: int, t: int)
    requires n < |pq| && HoleInv(pq, qp, n, h, t)
    ensures Positions(pq[h := t], qp[t := h], n) && Reverse(pq[h := t], qp[t := h], n)
  {
  }

  // ---------------------------------------------------------------------
  // swim

  /** The loop of `swim(i)`: while the item of the parent's key is greater
      than the item of the saved key `t`, the parent's key moves down into
      the hole together with its reverse index. */
  function SwimLoop(items: seq<int>, pq: seq<int>, qp: seq<int>, n: int, i: int, t: int)
    : (r: (seq<int>, seq<int>, int))
    requires |items| == |qp| && n < |pq| && 1 <= i <= n && 0 <= t < |qp|
    requires Ranged(pq, n, |qp|)
    ensures |r.0| == |pq| && |r.1| == |qp| && 1 <= r.2 <= i && Ranged(r.0, n, |qp|)
    decreases i
  {
    if i > 1 && MinPQ.Greater(items[pq[i / 2]], items[t]) then
      SwimLoop(items, pq[i := pq[i / 2]], qp[pq[i / 2] := i], n, i / 2, t)
    else (pq, qp, i)
  }

  /** `swim(i)`: the saved key and its reverse index go to the final hole. */
  function Swim(items: seq<int>, pq: seq<int>, qp: seq<int>, n: int, i: int): (r: (seq<int>, seq<int>))
    requires |items| == |qp| && n < |pq| && 1 <= i <= n
    requires Ranged(pq, n, |qp|)
    ensures |r.0| == |pq| && |r.1| == |qp| && Ranged(r.0, n, |qp|)
  {
    var t := pq[i];
    var (p, q, k) := SwimLoop(items, pq, qp, n, i, t);
    (p[k := t], q[t := k])
  }

  /** The index swim moves the items exactly as the value swim of MinPQ. */
  lemma {:induction false} SwimLoopSim(items: seq<int>, pq: seq<int>, qp: seq<int>, n: int, i: int, t: int)
    requires |items| == |qp| && n < |pq| && 1 <= i <= n && 0 <= t < |qp|
    requires Ranged(pq, n, |qp|)
    ensures var r := SwimLoop(items, pq, qp, n, i, t);
      var s := MinPQ.SwimLoop(Vals(items, pq), i, items[t]);
      Vals(items, r.0) == s.0 && r.2 == s.1
    decreases i
  {
    if i > 1 && MinPQ.Greater(items[pq[i / 2]], items[t]) {
      var v := Vals(items, pq);
      assert Vals(items, pq[i := pq[i / 2]]) == v[i := v[i / 2]];
      SwimLoopSim(items, pq[i := pq[i / 2]], qp[pq[i / 2] := i], n, i / 2, t);
    }
  }

  /** The swim loop keeps the hole invariant and every key's presence. */
  lemma {:induction false} SwimLoopHole(items: seq<int>, pq: seq<int>, qp: seq<int>, n: int, i: int, t: int)
    requires |items| == |qp| && n < |pq| && Ranged(pq, n, |qp|)
    requires HoleInv(pq, qp, n, i, t)
    ensures var r := SwimLoop(items, pq, qp, n, i, t);
      && HoleInv(r.0, r.1, n, r.2, t)
      && forall k :: 0 <= k < |qp| ==> (r.1[k] == Absent <==> qp[k] == Absent)
    decreases i
  {
    if i > 1 && MinPQ.Greater(items[pq[i / 2]], items[t]) {
      HoleMove(pq, qp, n, i, i / 2, t);
      SwimLoopHole(items, pq[i := pq[i / 2]], qp[pq[i / 2] := i], n, i / 2, t);
    }
  }

  /** `swim(i)` from a hole at `i`: it moves the items as the value swim
      does, leaves slots and reverse index in agreement with the saved key
      present at its final slot, and changes no other key's presence. */
  lemma SwimFacts(items: seq<int>, pq: seq<int>, qp: seq<int>, n: int, i: int)
    requires |items| == |qp| && n < |pq| && 1 <= i <= n && Ranged(pq, n, |qp|)
    requires HoleInv(pq, qp, n, i, pq[i])
    ensures var r := Swim(items, pq, qp, n, i);
      var s := MinPQ.Swim(Vals(items, pq), i);
      && Vals(items, r.0) == s.0
      && r.1[pq[i]] == s.1
      && Positions(r.0, r.1, n) && Reverse(r.0, r.1, n)
      && forall k :: 0 <= k < |qp| && k != pq[i] ==> (r.1[k] == Absent <==> qp[k] == Absent)
  {
    var t := pq[i];
    SwimLoopSim(items, pq, qp, n, i, t);
    SwimLoopHole(items, pq, qp, n, i, t);
    var (p, q, k) := SwimLoop(items, pq, qp, n, i, t);
    HoleClose(p, q, n, k, t);
    var v := Vals(items, pq);
    assert Vals(items, p[k := t]) == Vals(items, p)[k := v[i]];
  }

  // ---------------------------------------------------------------------
  // sink

  /** The `while (2 * i + 1 <= N)` loop of `sink(i)`: the smaller child's
      key moves up into the hole, with its reverse index, while its item is
      not greater than that of the saved key `t`. */
  function SinkLoop(items: seq<int>, pq: seq<int>, qp: seq<int>, n: int, i: int, t: int)
    : (r: (seq<int>, seq<int>, int))
    requires |items| == |qp| && n < |pq| && 1 <= i < |pq| && 0 <= t < |qp|
    requires Ranged(pq, n, |qp|)
    ensures |r.0| == |pq| && |r.1| == |qp| && i <= r.2 < |pq| && Ranged(r.0, n, |qp|)
    ensures r.2 >= i && (i <= n ==> r.2 <= n)
    decreases n - i
  {
    if 2 * i + 1 <= n then
      var j := if MinPQ.Greater(items[pq[2 * i + 1]], items[pq[2 * i]]) then 2 * i else 2 * i + 1;
      if MinPQ.Greater(items[pq[j]], items[t]) then (pq, qp, i)
      else SinkLoop(items, pq[i := pq[j]], qp[pq[j] := i], n, j, t)
    else (pq, qp, i)
  }

  /** `sink(i)` as written: the single-child step compares the item of the
      stale `pq[i]` instead of the saved key's. */
  function SinkAsWritten(items: seq<int>, pq: seq<int>, qp: seq<int>, n: int, i: int): (r: (seq<int>, seq<int>))
    requires |items| == |qp| && n < |pq| && 1 <= i < |pq| && 0 <= pq[i] < |qp|
    requires Ranged(pq, n, |qp|)
    ensures |r.0| == |pq| && |r.1| == |qp|
  {
    var t := pq[i];
    var (p, q, k) := SinkLoop(items, pq, qp, n, i, t);
    if 2 * k == n && MinPQ.Greater(items[p[k]], items[p[n]]) then
      (p[k := p[n]][n := t], q[p[n] := k][t := n])
    else (p[k := t], q[t := k])
  }

  /** `sink(i)` with the single-child step comparing the saved key's item. */
  function Sink(items: seq<int>, pq: seq<int>, qp: seq<int>, n: int, i: int): (r: (seq<int>, seq<int>))
    requires |items| == |qp| && n < |pq| && 1 <= i < |pq| && 0 <= pq[i] < |qp|
    requires Ranged(pq, n, |qp|)
    ensures |r.0| == |pq| && |r.1| == |qp|
  {
    var t := pq[i];
    var (p, q, k) := SinkLoop(items, pq, qp, n, i, t);
    if 2 * k == n && MinPQ.Greater(items[t], items[p[n]]) then
      (p[k := p[n]][n := t], q[p[n] := k][t := n])
    else (p[k := t], q[t := k])
  }

  /** The index sink loop moves the items exactly as the value sink loop. */
  lemma {:induction false} SinkLoopSim(items: seq<int>, pq: seq<int>, qp: seq<int>, n: int, i: int, t: int)
    requires |items| == |qp| && n < |pq| && 1 <= i < |pq| && 0 <= t < |qp|
    requires Ranged(pq, n, |qp|)
    ensures var r := SinkLoop(items, pq, qp, n, i, t);
      var s := MinPQ.SinkLoop(Vals(items, pq), n, i, items[t]);
      Vals(items, r.0) == s.0 && r.2 == s.1
    decreases n - i
  {
    if 2 * i + 1 <= n {
      var j := if MinPQ.Greater(items[pq[2 * i + 1]], items[pq[2 * i]]) then 2 * i else 2 * i + 1;
      if !MinPQ.Greater(items[pq[j]], items[t]) {
        var v := Vals(items, pq);
        assert Vals(items, pq[i := pq[j]]) == v[i := v[j]];
        SinkLoopSim(items, pq[i := pq[j]], qp[pq[j] := i], n, j, t);
      }
    }
  }

  /** The sink loop keeps the hole invariant and every key's presence. */
  lemma {:induction false} SinkLoopHole(items: seq<int>, pq: seq<int>, qp: seq<int>, n: int, i: int, t: int)
    requires |items| == |qp| && n < |pq| && Ranged(pq, n, |qp|)
    requires HoleInv(pq, qp, n, i, t)
    ensures var r := SinkLoop(items, pq, qp, n, i, t);
      && HoleInv(r.0, r.1, n, r.2, t)
      && forall k :: 0 <= k < |qp| ==> (r.1[k] == Absent <==> qp[k] == Absent)
    decreases n - i
  {
    if 2 * i + 1 <= n {
      var j := if MinPQ.Greater(items[pq[2 * i + 1]], items[pq[2 * i]]) then 2 * i else 2 * i + 1;
      if !MinPQ.Greater(items[pq[j]], items[t]) {
        HoleMove(pq, qp, n, i, j, t);
        SinkLoopHole(items, pq[i := pq[j]], qp[pq[j] := i], n, j, t);
      }
    }
  }

  /** The single-child step of either sink, after the loop stopped at hole
      `k`: moving the last key up first, or not, leaves slots and reverse
      index in agreement and moves the items as the value sinks do. */
  lemma SinkClose(items: seq<int>, p: seq<int>, q: seq<int>, n: int, k: int, t: int, w: seq<int>, x: int)
    requires |items| == |q| && n < |p| && Ranged(p, n, |q|)
    requires HoleInv(p, q, n, k, t) && w == Vals(items, p) && x == items[t]
    ensures Positions(p[k := t], q[t := k], n) && Reverse(p[k := t], q[t := k], n)
    ensures Vals(items, p[k := t]) == w[k := x]
    ensures forall j :: 0 <= j < |q| && j != t ==> (q[t := k][j] == Absent <==> q[j] == Absent)
    ensures 2 * k == n ==>
      && Positions(p[k := p[n]][n := t], q[p[n] := k][t := n], n)
      && Reverse(p[k := p[n]][n := t], q[p[n] := k][t := n], n)
      && Vals(items, p[k := p[n]][n := t]) == w[k := w[n]][n := x]
      && forall j :: 0 <= j < |q| && j != t ==> (q[p[n] := k][t := n][j] == Absent <==> q[j] == Absent)
  {
    HoleClose(p, q, n, k, t);
    if 2 * k == n {
      HoleMove(p, q, n, k, n, t);
      HoleClose(p[k := p[n]], q[p[n] := k], n, n, t);
    }
  }

  /** The corrected `sink(i)` from a hole at `i`: it moves the items as the
      value sink does, leaves slots and reverse index in agreement, and
      changes no key's presence but the saved key's. */
  lemma SinkFacts(items: seq<int>, pq: seq<int>, qp: seq<int>, n: int, i: int)
    requires |items| == |qp| && n < |pq| && 1 <= i <= n && Ranged(pq, n, |qp|)
    requires HoleInv(pq, qp, n, i, pq[i])
    ensures var r := Sink(items, pq, qp, n, i);
      && Vals(items, r.0) == MinPQ.Sink(Vals(items, pq), n, i).0
      && Positions(r.0, r.1, n) && Reverse(r.0, r.1, n) && 1 <= r.1[pq[i]] <= n
      && forall k :: 0 <= k < |qp| && k != pq[i] ==> (r.1[k] == Absent <==> qp[k] == Absent)
  {
    var t := pq[i];
    SinkLoopSim(items, pq, qp, n, i, t);
    SinkLoopHole(items, pq, qp, n, i, t);
    var (p, q, k) := SinkLoop(items, pq, qp, n, i, t);
    SinkClose(items, p, q, n, k, t, Vals(items, p), items[t]);
  }

  /** The same for `sink(i)` as written: its defect is in the order only. */
  lemma SinkAsWrittenFacts(items: seq<int>, pq: seq<int>, qp: seq<int>, n: int, i: int)
    requires |items| == |qp| && n < |pq| && 1 <= i <= n && Ranged(pq, n, |qp|)
    requires HoleInv(pq, qp, n, i, pq[i])
    ensures var r := SinkAsWritten(items, pq, qp, n, i);
      && Vals(items, r.0) == MinPQ.SinkAsWritten(Vals(items, pq), n, i).0
      && Positions(r.0, r.1, n) && Reverse(r.0, r.1, n) && 1 <= r.1[pq[i]] <= n
      && forall k :: 0 <= k < |qp| && k != pq[i] ==> (r.1[k] == Absent <==> qp[k] == Absent)
  {
    var t := pq[i];
    SinkLoopSim(items, pq, qp, n, i, t);
    SinkLoopHole(items, pq, qp, n, i, t);
    var (p, q, k) := SinkLoop(items, pq, qp, n, i, t);
    SinkClose(items, p, q, n, k, t, Vals(items, p), items[t]);
  }

  /** Heap order on slots 1..n depends on those slots only. */
  lemma OrderedPrefix(v: seq<int>, w: seq<int>, n: int, m: int)
    requires 0 <= m <= n < |v| && m < |w|
    requires forall c :: 1 <= c <= m ==> w[c] == v[c]
    requires MinPQ.OrderedFrom(v, n, 1)
    ensures MinPQ.OrderedFrom(w, m, 1)
  {
    forall c | 2 <= c <= m ensures w[c / 2] <= w[c] {
      assert v[c / 2] <= v[c];
    }
  }

  // ---------------------------------------------------------------------
  // Construction and queries

  /** `new IndexMinPQ(maxN)` as written: the reverse index is cleared only
      for keys below maxN, so key maxN reads as present in the empty queue. */
  function NewAsWritten(maxN: nat): (q: IPQ)
    ensures Shape(q) && q.n == 0 && |q.qp| == maxN + 1
    ensures forall k :: 0 <= k < maxN ==> !Contains(q, k)
  {
    IPQ(0, seq(maxN + 1, _ => 0), seq(maxN + 1, _ => 0),
        seq(maxN + 1, k requires 0 <= k <= maxN => if k < maxN then Absent else 0))
  }

  /** The constructor clearing every reverse-index entry: an empty heap
      holding no key. */
  function New(maxN: nat): (q: IPQ)
    ensures IsHeap(q) && q.n == 0 && |q.qp| == maxN + 1
    ensures forall k :: 0 <= k <= maxN ==> !Contains(q, k)
  {
    IPQ(0, seq(maxN + 1, _ => 0), seq(maxN + 1, _ => 0), seq(maxN + 1, _ => Absent))
  }

  /** `isEmpty()`: no key is present. */
  function IsEmpty(q: IPQ): (b: bool)
    requires Valid(q)
    ensures b <==> forall k :: 0 <= k < |q.qp| ==> !Contains(q, k)
  {
    if q.n == 0 then true
    else
      assert Contains(q, q.pq[1]);
      false
  }

  /** `size()`: the number of heap slots, each holding a present key. */
  function Size(q: IPQ): (s: int)
    requires Valid(q)
    ensures s == |q.pq[1..q.n + 1]|
    ensures forall k :: 0 <= k < |q.qp| ==> (Contains(q, k) <==> k in q.pq[1..q.n + 1])
  {
    q.n
  }

  /** In a heap, the key at the root has the least item of all present keys. */
  lemma RootLeastKey(q: IPQ)
    requires Valid(q) && q.n >= 1
    ensures 0 <= q.pq[1] < |q.qp| && Contains(q, q.pq[1])
    ensures IsHeap(q) ==> forall k :: 0 <= k < |q.qp| && Contains(q, k) ==> q.items[q.pq[1]] <= q.items[k]
  {
    var v := Vals(q.items, q.pq);
    if IsHeap(q) {
      forall k | 0 <= k < |q.qp| && Contains(q, k)
        ensures q.items[q.pq[1]] <= q.items[k]
      {
        SlotOf(q, k);
        MinPQ.RootLeast(v, q.n, q.qp[k]);
      }
    }
  }

  /** `minIndex()`: the key at the root, whose item is least. */
  function MinIndex(q: IPQ): (k: int)
    requires Valid(q) && q.n >= 1
    ensures 0 <= k < |q.qp| && Contains(q, k)
    ensures IsHeap(q) ==> forall j :: 0 <= j < |q.qp| && Contains(q, j) ==> q.items[k] <= q.items[j]
  {
    RootLeastKey(q);
    q.pq[1]
  }

  /** `min()`: the least item of the present keys. */
  function Min(q: IPQ): (x: int)
    requires Valid(q) && q.n >= 1
    ensures exists k :: 0 <= k < |q.qp| && Contains(q, k) && q.items[k] == x
    ensures IsHeap(q) ==> forall j :: 0 <= j < |q.qp| && Contains(q, j) ==> x <= q.items[j]
  {
    var k := MinIndex(q);
    q.items[k]
  }

  // ---------------------------------------------------------------------
  // insert

  /** Appending an absent key in slot n + 1, with its reverse index and its
      new item, opens a hole there over a heap whose only possible disorder
      is the edge into that slot. */
  lemma InsertPrep(q: IPQ, k: int, item: int)
    requires IsHeap(q) && 0 <= k < |q.qp| && !Contains(q, k) && q.n + 1 < |q.pq|
    ensures var n := q.n + 1;
      var items := q.items[k := item];
      var pq := q.pq[n := k];
      var qp := q.qp[k := n];
      var v := Vals(items, pq);
      && Ranged(pq, n, |qp|) && HoleInv(pq, qp, n, n, k)
      && MinPQ.OrderedBut(v, n, n) && MinPQ.Bridged(v, n, 1, n)
  {
    var n := q.n + 1;
    var items := q.items[k := item];
    var pq := q.pq[n := k];
    var v := Vals(items, pq);
    var u := Vals(q.items, q.pq);
    forall c | 1 <= c <= q.n ensures q.pq[c] != k && v[c] == u[c] {
      assert q.qp[q.pq[c]] == c;
    }
    forall c | 2 <= c <= n && c != n ensures v[c / 2] <= v[c] {
      assert u[c / 2] <= u[c];
    }
  }

  /** `insert(k, item)`: on a heap without `k` and with a free slot, `k`
      becomes present with `item`, no other key's presence changes, and the
      result is a heap. */
  function Insert(q: IPQ, k: int, item: int): (r: IPQ)
    requires IsHeap(q) && 0 <= k < |q.qp| && !Contains(q, k) && q.n + 1 < |q.pq|
    ensures IsHeap(r) && r.n == q.n + 1 && |r.qp| == |q.qp|
    ensures r.items == q.items[k := item]
    ensures Contains(r, k)
    ensures forall j :: 0 <= j < |q.qp| && j != k ==> (Contains(r, j) <==> Contains(q, j))
  {
    var n := q.n + 1;
    var items := q.items[k := item];
    var pq := q.pq[n := k];
    var qp := q.qp[k := n];
    InsertPrep(q, k, item);
    SwimFacts(items, pq, qp, n, n);
    MinPQ.SwimOrders(Vals(items, pq), n, n);
    var (pq', qp') := Swim(items, pq, qp, n, n);
    IPQ(n, items, pq', qp')
  }

  // ---------------------------------------------------------------------
  // change

  /** Giving present key `k` a new item disturbs only the edges touching
      its slot, and its parent stays no larger than its children. */
  lemma ChangePrep(q: IPQ, k: int, item: int)
    requires IsHeap(q) && 0 <= k < |q.qp| && Contains(q, k)
    ensures 1 <= q.qp[k] <= q.n && q.pq[q.qp[k]] == k
    ensures var v := Vals(q.items[k := item], q.pq);
      && Ranged(q.pq, q.n, |q.qp|)
      && MinPQ.OrderedAround(v, q.n, q.qp[k]) && MinPQ.Bridged(v, q.n, 1, q.qp[k])
  {
    SlotOf(q, k);
    var p := q.qp[k];
    var v := Vals(q.items[k := item], q.pq);
    var u := Vals(q.items, q.pq);
    forall c | 1 <= c <= q.n && c != p ensures v[c] == u[c] {
      assert q.qp[q.pq[c]] == c;
    }
    forall c | 2 <= c <= q.n && c != p && c / 2 != p ensures v[c / 2] <= v[c] {
      assert u[c / 2] <= u[c];
    }
    if p > 1 {
      forall c | 2 <= c <= q.n && c / 2 == p ensures v[p / 2] <= v[c] {
        assert u[p / 2] <= u[p] <= u[c];
      }
    }
  }

  lemma RepositionIf(v: seq<int>, n: int, p: int)
    requires 1 <= p <= n < |v|
    ensures MinPQ.OrderedAround(v, n, p) && MinPQ.Bridged(v, n, 1, p) ==>
      var (b, k) := MinPQ.Swim(v, p);
      1 <= k <= n && MinPQ.OrderedFrom(MinPQ.Sink(b, n, k).0, n, 1)
  {
    if MinPQ.OrderedAround(v, n, p) && MinPQ.Bridged(v, n, 1, p) {
      MinPQ.Reposition(v, n, p);
    }
  }

  /** The swim half of `change`: slots and reverse index still agree, `k`
      is at the slot where the value swim leaves its item, and presence is
      unchanged. */
  lemma SwimStage(items: seq<int>, pq: seq<int>, qp: seq<int>, n: int, k: int)
    requires |items| == |qp| && n < |pq| && 0 <= k < |qp| && 1 <= qp[k] <= n && pq[qp[k]] == k
    requires Positions(pq, qp, n) && Reverse(pq, qp, n)
    ensures var r := Swim(items, pq, qp, n, qp[k]);
      var s := MinPQ.Swim(Vals(items, pq), qp[k]);
      && Positions(r.0, r.1, n) && Reverse(r.0, r.1, n)
      && Vals(items, r.0) == s.0 && r.1[k] == s.1 && 1 <= s.1 <= n && r.0[s.1] == k
      && forall j :: 0 <= j < |qp| ==> (r.1[j] == Absent <==> qp[j] == Absent)
  {
    HoleOpen(pq, qp, n, qp[k]);
    SwimFacts(items, pq, qp, n, qp[k]);
  }

  /** The sink half of `change`, either version: slots and reverse index
      still agree, the items move as the value sink moves them, and
      presence is unchanged. */
  lemma SinkStage(items: seq<int>, pq: seq<int>, qp: seq<int>, n: int, k: int)
    requires |items| == |qp| && n < |pq| && 0 <= k < |qp| && 1 <= qp[k] <= n && pq[qp[k]] == k
    requires Positions(pq, qp, n) && Reverse(pq, qp, n)
    ensures var r := Sink(items, pq, qp, n, qp[k]);
      && Positions(r.0, r.1, n) && Reverse(r.0, r.1, n)
      && Vals(items, r.0) == MinPQ.Sink(Vals(items, pq), n, qp[k]).0
      && forall j :: 0 <= j < |qp| ==> (r.1[j] == Absent <==> qp[j] == Absent)
    ensures var r := SinkAsWritten(items, pq, qp, n, qp[k]);
      && Positions(r.0, r.1, n) && Reverse(r.0, r.1, n)
      && forall j :: 0 <= j < |qp| ==> (r.1[j] == Absent <==> qp[j] == Absent)
  {
    HoleOpen(pq, qp, n, qp[k]);
    SinkFacts(items, pq, qp, n, qp[k]);
    SinkAsWrittenFacts(items, pq, qp, n, qp[k]);
  }

  /** `swim(qp[k]); sink(qp[k])` on a queue whose slots and reverse index
      agree and whose only disorder is around the slot of `k`; `asWritten`
      selects the sink of the source. */
  function Fix(items: seq<int>, pq: seq<int>, qp: seq<int>, n: int, k: int, asWritten: bool)
    : (r: (seq<int>, seq<int>))
    requires |items| == |qp| && n < |pq| && 0 <= k < |qp| && 1 <= qp[k] <= n && pq[qp[k]] == k
    requires Positions(pq, qp, n) && Reverse(pq, qp, n)
    ensures |r.0| == |pq| && |r.1| == |qp|
    ensures Positions(r.0, r.1, n) && Reverse(r.0, r.1, n)
    ensures forall j :: 0 <= j < |qp| ==> (r.1[j] == Absent <==> qp[j] == Absent)
    ensures !asWritten && MinPQ.OrderedAround(Vals(items, pq), n, qp[k])
      && MinPQ.Bridged(Vals(items, pq), n, 1, qp[k])
      ==> MinPQ.OrderedFrom(Vals(items, r.0), n, 1)
  {
    SwimStage(items, pq, qp, n, k);
    var (pq1, qp1) := Swim(items, pq, qp, n, qp[k]);
    SinkStage(items, pq1, qp1, n, k);
    RepositionIf(Vals(items, pq), n, qp[k]);
    if asWritten then SinkAsWritten(items, pq1, qp1, n, qp1[k]) else Sink(items, pq1, qp1, n, qp1[k])
  }

  /** `change(k, item)` with the corrected sink: on a heap holding `k`, the
      item of `k` becomes `item`, presence is unchanged, and the result is a
      heap. */
  function Change(q: IPQ, k: int, item: int): (r: IPQ)
    requires IsHeap(q) && 0 <= k < |q.qp| && Contains(q, k)
    ensures IsHeap(r) && r.n == q.n && |r.qp| == |q.qp|
    ensures r.items == q.items[k := item]
    ensures forall j :: 0 <= j < |q.qp| ==> (Contains(r, j) <==> Contains(q, j))
  {
    ChangePrep(q, k, item);
    var (pq, qp) := Fix(q.items[k := item], q.pq, q.qp, q.n, k, false);
    IPQ(q.n, q.items[k := item], pq, qp)
  }

  /** `change(k, item)` as written: slots, reverse index and presence are
      kept, but the stale sink can leave the heap out of order. */
  function ChangeAsWritten(q: IPQ, k: int, item: int): (r: IPQ)
    requires Valid(q) && 0 <= k < |q.qp| && Contains(q, k)
    ensures Valid(r) && r.n == q.n && |r.qp| == |q.qp|
    ensures r.items == q.items[k := item]
    ensures forall j :: 0 <= j < |q.qp| ==> (Contains(r, j) <==> Contains(q, j))
  {
    SlotOf(q, k);
    var (pq, qp) := Fix(q.items[k := item], q.pq, q.qp, q.n, k, true);
    IPQ(q.n, q.items[k := item], pq, qp)
  }

  // ---------------------------------------------------------------------
  // delete

  /** `exch(i, N--)` after clearing the reverse index of `k`, the key at
      slot `i`: if `i` was not the last slot, a hole opens at `i` holding the
      last key; otherwise the queue without `k` is already consistent. */
  lemma DeleteHole(q: IPQ, k: int)
    requires Valid(q) && 0 <= k < |q.qp| && Contains(q, k)
    ensures var i := q.qp[k];
      var pq := q.pq[i := q.pq[q.n]][q.n := q.pq[i]];
      var qp := q.qp[k := Absent];
      && 1 <= i <= q.n && q.pq[i] == k && Ranged(pq, q.n - 1, |qp|)
      && (i < q.n ==> HoleInv(pq, qp, q.n - 1, i, pq[i]) && pq[i] != k && qp[pq[i]] != Absent)
      && (i == q.n ==> pq == q.pq && Positions(pq, qp, q.n - 1) && Reverse(pq, qp, q.n - 1))
  {
    SlotOf(q, k);
    var i := q.qp[k];
    var n := q.n;
    var pq := q.pq[i := q.pq[n]][n := q.pq[i]];
    var qp := q.qp[k := Absent];
    assert q.qp[q.pq[n]] == n;
    forall c | 1 <= c <= n - 1 && c != i
      ensures 0 <= pq[c] < |qp| && qp[pq[c]] == c && pq[c] != pq[i] && pq[c] != k
    {
      assert q.qp[q.pq[c]] == c;
    }
    forall j | 0 <= j < |qp| && qp[j] != Absent && (i < n ==> j != pq[i])
      ensures 1 <= qp[j] <= n - 1 && qp[j] != i && pq[qp[j]] == j
    {
      assert q.pq[q.qp[j]] == j;
    }
  }

  /** The same with the corrected reverse-index exchange: slots and reverse
      index agree at once, and the last key now at slot `i` has only the
      edges touching `i` out of order, with its parent bridged. */
  lemma DeletePrep(q: IPQ, k: int)
    requires IsHeap(q) && 0 <= k < |q.qp| && Contains(q, k) && q.qp[k] < q.n
    ensures var i := q.qp[k];
      var x := q.pq[q.n];
      var pq := q.pq[i := x][q.n := k];
      var qp := q.qp[k := Absent][x := i];
      var v := Vals(q.items, pq);
      && 1 <= i <= q.n - 1 && x != k && 0 <= x < |q.qp| && q.qp[x] != Absent
      && Positions(pq, qp, q.n - 1) && Reverse(pq, qp, q.n - 1)
      && MinPQ.OrderedAround(v, q.n - 1, i) && MinPQ.Bridged(v, q.n - 1, 1, i)
  {
    DeleteHole(q, k);
    var i := q.qp[k];
    var n := q.n;
    var x := q.pq[n];
    var pq := q.pq[i := x][n := k];
    HoleClose(q.pq[i := x][n := k], q.qp[k := Absent], n - 1, i, x);
    assert pq[i := x] == pq;
    var v := Vals(q.items, pq);
    var u := Vals(q.items, q.pq);
    assert v[i] == u[n];
    forall c | 2 <= c <= n - 1 && c != i && c / 2 != i ensures v[c / 2] <= v[c] {
      assert u[c / 2] <= u[c];
    }
    if i > 1 {
      forall c | 2 <= c <= n - 1 && c / 2 == i ensures v[i / 2] <= v[c] {
        assert u[i / 2] <= u[i] && u[i] <= u[c];
      }
    }
  }

  /** The corrected `delete(k)`: the last key replaces `k` with its reverse
      index updated, and is swum and sunk as in `change`. On a heap holding
      `k`, `k` becomes absent, no other key's presence changes, and the
      result is a heap. */
  function Delete(q: IPQ, k: int): (r: IPQ)
    requires IsHeap(q) && 0 <= k < |q.qp| && Contains(q, k)
    ensures IsHeap(r) && r.n == q.n - 1 && |r.qp| == |q.qp| && r.items == q.items
    ensures !Contains(r, k)
    ensures forall j :: 0 <= j < |q.qp| && j != k ==> (Contains(r, j) <==> Contains(q, j))
  {
    var i := q.qp[k];
    DeleteHole(q, k);
    if i < q.n then
      var x := q.pq[q.n];
      DeletePrep(q, k);
      var (pq, qp) := Fix(q.items, q.pq[i := x][q.n := k], q.qp[k := Absent][x := i], q.n - 1, x, false);
      IPQ(q.n - 1, q.items, pq, qp)
    else
      OrderedPrefix(Vals(q.items, q.pq), Vals(q.items, q.pq), q.n, q.n - 1);
      IPQ(q.n - 1, q.items, q.pq, q.qp[k := Absent])
  }

  /** `delete(k)` as written: `qp[k] = -1; exch(i, N--); sink(i)`. When `k`
      was not in the last slot, slots, reverse index and presence come out
      right (the order is what the findings are about). */
  function DeleteAsWritten(q: IPQ, k: int): (r: IPQ)
    requires Valid(q) && 0 <= k < |q.qp| && Contains(q, k)
    ensures r.n == q.n - 1 && |r.qp| == |q.qp| && r.items == q.items
    ensures Shape(r)
    ensures q.qp[k] < q.n ==>
      (Valid(r) && !Contains(r, k)
       && forall j :: 0 <= j < |q.qp| && j != k ==> (Contains(r, j) <==> Contains(q, j)))
  {
    var i := q.qp[k];
    DeleteHole(q, k);
    var pq := q.pq[i := q.pq[q.n]][q.n := q.pq[i]];
    var qp := q.qp[k := Absent];
    var res := SinkAsWritten(q.items, pq, qp, q.n - 1, i);
    DeleteAsWrittenKeeps(q, k, res.0, res.1);
    IPQ(q.n - 1, q.items, res.0, res.1)
  }

  /** What the sink after the exchange leaves behind when `k` was not in
      the last slot. */
  lemma DeleteAsWrittenKeeps(q: IPQ, k: int, pq': seq<int>, qp': seq<int>)
    requires Valid(q) && 0 <= k < |q.qp| && Contains(q, k)
    requires var i := q.qp[k];
      var pq := q.pq[i := q.pq[q.n]][q.n := q.pq[i]];
      var qp := q.qp[k := Absent];
      1 <= i <= q.n && Ranged(pq, q.n - 1, |qp|) && 0 <= pq[i] < |qp|
      && (pq', qp') == SinkAsWritten(q.items, pq, qp, q.n - 1, i)
    ensures q.qp[k] < q.n ==>
      var r := IPQ(q.n - 1, q.items, pq', qp');
      (Valid(r) && !Contains(r, k)
       && forall j :: 0 <= j < |q.qp| && j != k ==> (Contains(r, j) <==> Contains(q, j)))
  {
    var i := q.qp[k];
    if i < q.n {
      DeleteHole(q, k);
      var pq := q.pq[i := q.pq[q.n]][q.n := q.pq[i]];
      var qp := q.qp[k := Absent];
      var t := pq[i];
      assert HoleInv(pq, qp, q.n - 1, i, t) && t != k && qp[t] != Absent;
      SinkAsWrittenOut(q.items, pq, qp, q.n - 1, i, pq', qp');
      DeleteClose(q, k, t, pq', qp');
    }
  }

  /** The bookkeeping after the delete's sink, in terms of the facts the
      sink guarantees: the moved key `t` stays present, every other key
      keeps its presence except `k`, which is gone. */
  lemma DeleteClose(q: IPQ, k: int, t: int, pq': seq<int>, qp': seq<int>)
    requires Valid(q) && 0 <= k < |q.qp| && 0 <= t < |q.qp| && t != k && q.qp[t] != Absent
    requires 1 <= q.n && |pq'| == |q.pq| && |qp'| == |q.qp|
    requires Positions(pq', qp', q.n - 1) && Reverse(pq', qp', q.n - 1) && qp'[t] != Absent
    requires forall j :: 0 <= j < |q.qp| && j != t ==> (qp'[j] == Absent <==> q.qp[k := Absent][j] == Absent)
    ensures var r := IPQ(q.n - 1, q.items, pq', qp');
      (Valid(r) && !Contains(r, k)
       && forall j :: 0 <= j < |q.qp| && j != k ==> (Contains(r, j) <==> Contains(q, j)))
  {
    var r := IPQ(q.n - 1, q.items, pq', qp');
    assert qp'[k] == Absent;
    forall j | 0 <= j < |q.qp| && j != k
      ensures Contains(r, j) <==> Contains(q, j)
    {
      if j != t {
        assert q.qp[k := Absent][j] == q.qp[j];
      }
    }
  }

  /** The sink's facts about its outputs `pq'` and `qp'`, named. */
  lemma SinkAsWrittenOut(items: seq<int>, pq: seq<int>, qp: seq<int>, n: int, i: int,
                         pq': seq<int>, qp': seq<int>)
    requires |items| == |qp| && n < |pq| && 1 <= i <= n && Ranged(pq, n, |qp|)
    requires HoleInv(pq, qp, n, i, pq[i])
    requires (pq', qp') == SinkAsWritten(items, pq, qp, n, i)
    ensures |pq'| == |pq| && |qp'| == |qp|
    ensures Positions(pq', qp', n) && Reverse(pq', qp', n) && qp'[pq[i]] != Absent
    ensures forall j :: 0 <= j < |qp| && j != pq[i] ==> (qp'[j] == Absent <==> qp[j] == Absent)
  {
    SinkAsWrittenFacts(items, pq, qp, n, i);
  }

  /** `delMin()` with the corrected delete: returns a present key of least
      item and removes exactly that key, leaving a heap. */
  function DelMin(q: IPQ): (r: (int, IPQ))
    requires IsHeap(q) && q.n >= 1
    ensures 0 <= r.0 < |q.qp| && Contains(q, r.0)
    ensures forall j :: 0 <= j < |q.qp| && Contains(q, j) ==> q.items[r.0] <= q.items[j]
    ensures IsHeap(r.1) && r.1.n == q.n - 1 && |r.1.qp| == |q.qp| && !Contains(r.1, r.0)
    ensures forall j :: 0 <= j < |q.qp| && j != r.0 ==> (Contains(r.1, j) <==> Contains(q, j))
  {
    RootLeastKey(q);
    (q.pq[1], Delete(q, q.pq[1]))
  }

  /** `delMin()` as written: returns the root's key, present beforehand;
      with at least two keys it leaves a consistent queue without it. */
  function DelMinAsWritten(q: IPQ): (r: (int, IPQ))
    requires Valid(q) && q.n >= 1
    ensures 0 <= r.0 < |q.qp| && Contains(q, r.0)
    ensures Shape(r.1) && r.1.n == q.n - 1 && |r.1.qp| == |q.qp|
    ensures q.n >= 2 ==> Valid(r.1) && !Contains(r.1, r.0)
  {
    RootLeastKey(q);
    (q.pq[1], DeleteAsWritten(q, q.pq[1]))
  }

  // ---------------------------------------------------------------------
  // Findings: the source as written against the corrected definitions

  /** The constructor leaves `qp[maxN]` at 0, so the empty queue reports
      key maxN as present and its reverse index points nowhere. */
  lemma NewMarksLastKey(maxN: nat)
    ensures NewAsWritten(maxN).n == 0 && Contains(NewAsWritten(maxN), maxN)
    ensures !Valid(NewAsWritten(maxN))
  {
    var q := NewAsWritten(maxN);
    assert q.qp[maxN] == 0;
  }

  lemma LastSlotSink()
    ensures SinkAsWritten([5, 0], [0, 0], [Absent, Absent], 0, 1) == ([0, 0], [1, Absent])
  {
    assert SinkLoop([5, 0], [0, 0], [Absent, Absent], 0, 1, 0) == ([0, 0], [Absent, Absent], 1);
    assert [0, 0][1 := 0] == [0, 0] && [Absent, Absent][0 := 1] == [1, Absent];
  }

  /** Deleting the key in the last slot: `sink(i)` runs on the vacated slot
      and writes `qp[k] = i` back, so after delMin on a one-key queue the
      key is still reported present in the empty queue. */
  lemma DeleteLastSlotStaysPresent()
    ensures IsHeap(IPQ(1, [5, 0], [0, 0], [1, Absent]))
    ensures var r := DelMinAsWritten(IPQ(1, [5, 0], [0, 0], [1, Absent]));
      r.0 == 0 && r.1.n == 0 && Contains(r.1, 0) && !Valid(r.1)
  {
    LastSlotSink();
    var q := IPQ(1, [5, 0], [0, 0], [1, Absent]);
    assert q.pq[1 := q.pq[1]][1 := q.pq[1]] == [0, 0];
    assert q.qp[0 := Absent] == [Absent, Absent];
    var r := DelMinAsWritten(q);
    assert r.1 == IPQ(0, [5, 0], [0, 0], [1, Absent]);
  }

  lemma NoSwimSink()
    ensures var items := [1, 10, 2, 11, 12, 3, 4, 0];
      SinkAsWritten(items, [0, 0, 1, 2, 3, 6, 5, 4], [1, 2, 3, 4, Absent, 6, 7, Absent], 6, 5)
        == ([0, 0, 1, 2, 3, 6, 5, 4], [1, 2, 3, 4, Absent, 6, 5, Absent])
  {
    var items := [1, 10, 2, 11, 12, 3, 4, 0];
    var pq := [0, 0, 1, 2, 3, 6, 5, 4];
    var qp := [1, 2, 3, 4, Absent, 6, 7, Absent];
    assert SinkLoop(items, pq, qp, 6, 5, 6) == (pq, qp, 5);
    assert pq[5 := 6] == pq;
    assert qp[6 := 5] == [1, 2, 3, 4, Absent, 6, 5, Absent];
  }

  /** `delete` only sinks the key moved into the vacated slot; when that key
      is smaller than the slot's parent it must swim instead. Deleting key 4
      (item 12, slot 5) from this heap puts item 4 below item 10. */
  lemma DeleteWithoutSwim()
    ensures IsHeap(IPQ(7, [1, 10, 2, 11, 12, 3, 4, 0], [0, 0, 1, 2, 3, 4, 5, 6],
                          [1, 2, 3, 4, 5, 6, 7, Absent]))
    ensures var r := DeleteAsWritten(IPQ(7, [1, 10, 2, 11, 12, 3, 4, 0], [0, 0, 1, 2, 3, 4, 5, 6],
                                         [1, 2, 3, 4, 5, 6, 7, Absent]), 4);
      Valid(r) && !IsHeap(r)
  {
    var q := IPQ(7, [1, 10, 2, 11, 12, 3, 4, 0], [0, 0, 1, 2, 3, 4, 5, 6], [1, 2, 3, 4, 5, 6, 7, Absent]);
    NoSwimHeap();
    NoSwimDelete();
    var r := DeleteAsWritten(q, 4);
    assert q.qp[4] < q.n;
    assert r.pq == [0, 0, 1, 2, 3, 6, 5, 4];
    var w := Vals(r.items, r.pq);
    assert w[5 / 2] == 10 && w[5] == 4;
  }

  lemma NoSwimHeap()
    ensures IsHeap(IPQ(7, [1, 10, 2, 11, 12, 3, 4, 0], [0, 0, 1, 2, 3, 4, 5, 6],
                          [1, 2, 3, 4, 5, 6, 7, Absent]))
  {
    var q := IPQ(7, [1, 10, 2, 11, 12, 3, 4, 0], [0, 0, 1, 2, 3, 4, 5, 6], [1, 2, 3, 4, 5, 6, 7, Absent]);
    NoSwimValid();
    var v := Vals(q.items, q.pq);
    assert v == [1, 1, 10, 2, 11, 12, 3, 4];
    NoSwimOrdered();
  }

  lemma NoSwimValid()
    ensures Valid(IPQ(7, [1, 10, 2, 11, 12, 3, 4, 0], [0, 0, 1, 2, 3, 4, 5, 6], [1, 2, 3, 4, 5, 6, 7, Absent]))
  {
  }

  lemma NoSwimOrdered()
    ensures MinPQ.OrderedFrom([1, 1, 10, 2, 11, 12, 3, 4], 7, 1)
  {
  }

  /** The queue DeleteWithoutSwim ends with. */
  lemma NoSwimDelete()
    ensures DeleteAsWritten(IPQ(7, [1, 10, 2, 11, 12, 3, 4, 0], [0, 0, 1, 2, 3, 4, 5, 6],
                                [1, 2, 3, 4, 5, 6, 7, Absent]), 4)
         == IPQ(6, [1, 10, 2, 11, 12, 3, 4, 0], [0, 0, 1, 2, 3, 6, 5, 4], [1, 2, 3, 4, Absent, 6, 5, Absent])
  {
    var q := IPQ(7, [1, 10, 2, 11, 12, 3, 4, 0], [0, 0, 1, 2, 3, 4, 5, 6], [1, 2, 3, 4, 5, 6, 7, Absent]);
    NoSwimSink();
    assert q.pq[5 := q.pq[7]][7 := q.pq[5]] == [0, 0, 1, 2, 3, 6, 5, 4];
    assert q.qp[4 := Absent] == [1, 2, 3, 4, Absent, 6, 7, Absent];
  }

  lemma StaleSink()
    ensures var items := [10, 11, 19, 13, 18, 0];
      SinkAsWritten(items, [0, 4, 1, 2, 3, 0], [Absent, 2, 3, 4, 5, Absent], 4, 1)
        == ([0, 1, 4, 2, 3, 0], [Absent, 1, 3, 4, 2, Absent])
  {
    var items := [10, 11, 19, 13, 18, 0];
    var pq := [0, 4, 1, 2, 3, 0];
    var qp := [Absent, 2, 3, 4, 5, Absent];
    assert SinkLoop(items, pq, qp, 4, 1, 4) == SinkLoop(items, pq[1 := 1], qp[1 := 1], 4, 2, 4);
    assert SinkLoop(items, pq[1 := 1], qp[1 := 1], 4, 2, 4) == (pq[1 := 1], qp[1 := 1], 2);
    assert pq[1 := 1][2 := 4] == [0, 1, 4, 2, 3, 0];
    assert qp[1 := 1][4 := 2] == [Absent, 1, 3, 4, 2, Absent];
  }

  /** The single-child step of sink compares the stale slot: delMin on the
      heap of items 10, 11, 19, 13, 18 leaves item 18 above item 13, while
      the corrected DelMin always leaves a heap. */
  lemma IndexSinkStaleCompare()
    ensures IsHeap(IPQ(5, [10, 11, 19, 13, 18, 0], [0, 0, 1, 2, 3, 4], [1, 2, 3, 4, 5, Absent]))
    ensures var r := DelMinAsWritten(IPQ(5, [10, 11, 19, 13, 18, 0], [0, 0, 1, 2, 3, 4],
                                         [1, 2, 3, 4, 5, Absent]));
      r.0 == 0 && Valid(r.1) && !IsHeap(r.1)
  {
    var q := IPQ(5, [10, 11, 19, 13, 18, 0], [0, 0, 1, 2, 3, 4], [1, 2, 3, 4, 5, Absent]);
    StaleValid();
    var v := Vals(q.items, q.pq);
    assert v == [10, 10, 11, 19, 13, 18];
    StaleOrdered();
    StaleSink();
    assert q.pq[1 := q.pq[5]][5 := q.pq[1]] == [0, 4, 1, 2, 3, 0];
    assert q.qp[0 := Absent] == [Absent, 2, 3, 4, 5, Absent];
    var r := DelMinAsWritten(q);
    assert r.1.pq == [0, 1, 4, 2, 3, 0];
    var w := Vals(r.1.items, r.1.pq);
    assert w[4 / 2] == 18 && w[4] == 13;
  }

  lemma StaleValid()
    ensures Valid(IPQ(5, [10, 11, 19, 13, 18, 0], [0, 0, 1, 2, 3, 4], [1, 2, 3, 4, 5, Absent]))
  {
  }

  lemma StaleOrdered()
    ensures MinPQ.OrderedFrom([10, 10, 11, 19, 13, 18], 5, 1)
  {
  }

  /** The disorder that `IndexSinkStaleCompare` leaves reaches the callers.
      Insert key 0 with item 20 into that queue: its swim leaves it in slot
      5, under item 18. The first delMin then returns key 1, the least, but
      its sink does not repair the disorder. So the second delMin returns
      key 4 with item 18 while key 3 with item 13 is still queued. */
  lemma StaleHeapReturnsNonLeast()
    ensures var q := IPQ(5, [20, 11, 19, 13, 18, 0], [0, 1, 4, 2, 3, 0], [5, 1, 3, 4, 2, Absent]);
      && Valid(q)
      && Swim(q.items, q.pq, q.qp, 5, 5) == (q.pq, q.qp)
      && var r1 := DelMinAsWritten(q);
         && r1.0 == 1
         && var r2 := DelMinAsWritten(r1.1);
            r2.0 == 4 && Contains(r2.1, 3) && r2.1.items[3] < r2.1.items[4]
  {
    var items := [20, 11, 19, 13, 18, 0];
    var q := IPQ(5, items, [0, 1, 4, 2, 3, 0], [5, 1, 3, 4, 2, Absent]);
    assert SwimLoop(items, q.pq, q.qp, 5, 5, 0) == (q.pq, q.qp, 5);
    assert q.pq[5 := 0] == q.pq && q.qp[0 := 5] == q.qp;
    var pq := [0, 0, 4, 2, 3, 1];
    var qp := [5, Absent, 3, 4, 2, Absent];
    assert q.pq[1 := q.pq[5]][5 := q.pq[1]] == pq;
    assert q.qp[1 := Absent] == qp;
    assert SinkLoop(items, pq, qp, 4, 1, 0) == SinkLoop(items, pq[1 := 4], qp[4 := 1], 4, 2, 0);
    assert SinkLoop(items, pq[1 := 4], qp[4 := 1], 4, 2, 0) == (pq[1 := 4], qp[4 := 1], 2);
    assert pq[1 := 4][2 := 3][4 := 0] == [0, 4, 3, 2, 0, 1];
    assert qp[4 := 1][3 := 2][0 := 4] == [4, Absent, 3, 2, 1, Absent];
    var r1 := DelMinAsWritten(q);
    assert r1.1 == IPQ(4, items, [0, 4, 3, 2, 0, 1], [4, Absent, 3, 2, 1, Absent]);
  }
}
