/** Lists of positions in increasing order, built from the front. */
module Selections {

  /** `at` selects positions below n in increasing order. */
  predicate Increasing(at: seq<nat>, n: nat) {
    && (forall k :: 0 <= k < |at| ==> at[k] < n)
    && (forall j, k :: 0 <= j < k < |at| ==> at[j] < at[k])
  }

  /** One more position is looked at, and taken or not. */
  lemma Extended(before: seq<nat>, n: nat, take: bool)
    requires Increasing(before, n)
    ensures var at := before + if take then [n] else [];
            && Increasing(at, n + 1)
            && (forall k :: 0 <= k < |before| ==> at[k] == before[k] < n)
            && (forall m :: 0 <= m < n ==> (m in at <==> m in before)) && (n in at <==> take)
  {
    assert n !in before;
  }

  lemma NoneTaken(n: nat)
    ensures Increasing([], n)
  {
  }
}
