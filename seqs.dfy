/** Order-preserving subsequences, the shape of every filter in the model. */
module Seqs {

  /** `idx` maps each position of `a` to a position of `b` holding the same element,
      strictly increasingly: `a` is `b` with some elements dropped and none reordered. */
  ghost predicate Embeds<T>(a: seq<T>, b: seq<T>, idx: seq<int>)
  {
    && |idx| == |a|
    && (forall k :: 0 <= k < |idx| ==> 0 <= idx[k] < |b| && a[k] == b[idx[k]])
    && (forall j, k :: 0 <= j < k < |idx| ==> idx[j] < idx[k])
  }

  ghost predicate IsSubsequence<T>(a: seq<T>, b: seq<T>)
  {
    exists idx :: Embeds(a, b, idx)
  }

  /** Appending an element to the longer sequence keeps an embedding, and appending it
      to both extends the embedding by the new last position. */
  lemma EmbedsSnoc<T>(a: seq<T>, b: seq<T>, idx: seq<int>, x: T)
    requires Embeds(a, b, idx)
    ensures Embeds(a, b + [x], idx)
    ensures Embeds(a + [x], b + [x], idx + [|b|])
  {
    var b', idx' := b + [x], idx + [|b|];
    assert forall k :: 0 <= k < |idx| ==> b'[idx[k]] == b[idx[k]];
    assert forall k :: 0 <= k < |idx'| ==> (a + [x])[k] == b'[idx'[k]] by {
      forall k | 0 <= k < |idx'| ensures (a + [x])[k] == b'[idx'[k]] {
        if k < |idx| { assert idx'[k] == idx[k]; } else { assert idx'[k] == |b|; }
      }
    }
  }
}
