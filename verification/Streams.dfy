/** Left folds over byte streams, and what cutting the stream does to them. */
module Streams {

  function Fold<S, B>(f: (S, B) -> S, s: S, xs: seq<B>): S {
    if xs == [] then s else Fold(f, f(s, xs[0]), xs[1..])
  }

  /** Feeding a stream in two pieces is feeding it whole. */
  lemma {:induction false} FoldConcat<S, B>(f: (S, B) -> S, s: S, xs: seq<B>, ys: seq<B>)
    ensures Fold(f, s, xs + ys) == Fold(f, Fold(f, s, xs), ys)
    decreases |xs|
  {
    if xs == [] {
      assert xs + ys == ys;
    } else {
      assert (xs + ys)[1..] == xs[1..] + ys;
      FoldConcat(f, f(s, xs[0]), xs[1..], ys);
    }
  }

  function Flatten<B>(chunks: seq<seq<B>>): seq<B> {
    if chunks == [] then [] else chunks[0] + Flatten(chunks[1..])
  }

  lemma {:induction false} FlattenNext<B>(chunks: seq<seq<B>>, i: nat)
    requires i < |chunks|
    ensures Flatten(chunks[..i + 1]) == Flatten(chunks[..i]) + chunks[i]
    decreases i
  {
    if i > 0 {
      FlattenNext(chunks[1..], i - 1);
      assert chunks[..i + 1][1..] == chunks[1..][..i] && chunks[..i][1..] == chunks[1..][..i - 1];
    }
  }

  function FoldChunks<S, B>(f: (S, B) -> S, s: S, chunks: seq<seq<B>>): S {
    if chunks == [] then s else FoldChunks(f, Fold(f, s, chunks[0]), chunks[1..])
  }

  /** However a stream is cut, the fold ends the same. */
  lemma {:induction false} ChunksIrrelevant<S, B>(f: (S, B) -> S, s: S, chunks: seq<seq<B>>)
    ensures FoldChunks(f, s, chunks) == Fold(f, s, Flatten(chunks))
    decreases |chunks|
  {
    if chunks != [] {
      FoldConcat(f, s, chunks[0], Flatten(chunks[1..]));
      ChunksIrrelevant(f, Fold(f, s, chunks[0]), chunks[1..]);
    }
  }
}
