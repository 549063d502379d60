/** Facts about cutting and joining sequences, stated once for every loop over a prefix. */
module Seqs {

  lemma Associative<T>(a: seq<T>, b: seq<T>, c: seq<T>)
    ensures (a + b) + c == a + (b + c)
  {
  }

  /** The prefix of length k + 1 after `before` is the one of length k and element k, and
      with the rest after it, it gives back all of `before + xs`. */
  lemma PrefixStep<T>(before: seq<T>, xs: seq<T>, k: int)
    requires 0 <= k < |xs|
    ensures before + xs[..k + 1] == (before + xs[..k]) + [xs[k]]
    ensures (before + xs[..k + 1]) + xs[k + 1..] == before + xs
  {
    assert xs[..k + 1] == xs[..k] + [xs[k]];
    assert xs[..k + 1] + xs[k + 1..] == xs;
  }
}
