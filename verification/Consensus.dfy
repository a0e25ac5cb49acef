/** What the tallies over sharders' replies in zcncore share. */
module Consensus {
  const CONSENSUS_THRESH: nat := 25

  /** The threshold, in the source's integer arithmetic. */
  predicate Quorum(votes: nat, sharders: nat) {
    sharders > 0 && votes * 100 / sharders >= CONSENSUS_THRESH
  }

  lemma DivAtLeast(a: nat, n: nat, k: nat)
    requires n > 0
    ensures a / n >= k <==> a >= k * n
  {
    var q := a / n;
    assert a == q * n + a % n;
    if q >= k {
      assert q * n >= k * n;
    } else {
      assert (q + 1) * n <= k * n;
    }
  }

  /** In spite of the rounding a quorum is a quarter of the sharders. */
  lemma QuorumIsQuarter(votes: nat, sharders: nat)
    ensures Quorum(votes, sharders) <==> sharders > 0 && 4 * votes >= sharders
  {
    if sharders > 0 {
      DivAtLeast(votes * 100, sharders, CONSENSUS_THRESH);
    }
  }

  /** Reading a missing key of a Go map gives zero. */
  function Count<K>(tally: map<K, nat>, key: K): nat {
    if key in tally then tally[key] else 0
  }
}
