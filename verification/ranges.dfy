/** A property of every position in a range, defined one position at a
    time, so that a proof unfolds it only as far as it needs. */
module Ranges {

  /** `p` holds of every position from `k` up to, not including, `at`. */
  ghost predicate AllFrom(p: nat -> bool, k: nat, at: nat)
    decreases at - k
  {
    k >= at || (p(k) && AllFrom(p, k + 1, at))
  }

  /** AllFrom, position by position. */
  lemma {:induction false} AllFromAt(p: nat -> bool, k: nat, at: nat, m: nat)
    requires AllFrom(p, k, at) && k <= m < at
    ensures p(m)
    decreases m - k
  {
    if k < m {
      AllFromAt(p, k + 1, at, m);
    }
  }

  /** One more position at the front. */
  lemma AllFromCons(p: nat -> bool, k: nat, at: nat)
    requires p(k) && AllFrom(p, k + 1, at)
    ensures AllFrom(p, k, at)
  {
  }
}
