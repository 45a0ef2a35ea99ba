/**
 * The threshold-flush rule of `insert_data`'s buffer, stated on values:
 * `Chunks(xs, k)` is the sequence of bulk writes the buffer issues for the
 * documents `xs` when it is flushed each time it holds `k` documents and
 * once more, if it is not empty, at the end of the input.
 */
module Batching {

  /** Consecutive pieces of `xs`, each of `k` elements except a shorter last one. */
  function Chunks<T>(xs: seq<T>, k: nat): seq<seq<T>>
    requires k >= 1
    decreases |xs|
  {
    if |xs| == 0 then []
    else if |xs| <= k then [xs]
    else [xs[..k]] + Chunks(xs[k..], k)
  }

  /** The concatenation of the pieces, in order. */
  function Flatten<T>(xss: seq<seq<T>>): seq<T>
  {
    if |xss| == 0 then [] else xss[0] + Flatten(xss[1..])
  }

  /** ceil(n / k) */
  function CeilDiv(n: nat, k: nat): nat
    requires k >= 1
  {
    (n + k - 1) / k
  }

  /** Every element goes into exactly one piece, and the pieces in order give
      back the input. */
  lemma {:induction false} ChunksFlatten<T>(xs: seq<T>, k: nat)
    requires k >= 1
    ensures Flatten(Chunks(xs, k)) == xs
    decreases |xs|
  {
    if |xs| > k {
      ChunksFlatten(xs[k..], k);
      assert [xs[..k]] + Chunks(xs[k..], k) == Chunks(xs, k);
      assert Flatten(Chunks(xs, k)) == xs[..k] + Flatten(Chunks(xs[k..], k));
      assert xs[..k] + xs[k..] == xs;
    } else if |xs| > 0 {
      assert Flatten(Chunks(xs, k)) == xs + Flatten<T>([]);
    }
  }

  /** No piece is empty; every piece but the last holds exactly `k` elements
      and the last holds between 1 and `k`, so that the input length is
      (number of pieces - 1) * k plus the size of the last piece. */
  lemma {:induction false} ChunksSizes<T>(xs: seq<T>, k: nat)
    requires k >= 1
    ensures var c := Chunks(xs, k);
      forall i :: 0 <= i < |c| ==> 1 <= |c[i]| <= k && (i < |c| - 1 ==> |c[i]| == k)
    ensures var c := Chunks(xs, k);
      |c| > 0 ==> |xs| == (|c| - 1) * k + |c[|c| - 1]|
    decreases |xs|
  {
    if |xs| > k {
      ChunksSizes(xs[k..], k);
      var c := Chunks(xs, k);
      var rest := Chunks(xs[k..], k);
      assert c == [xs[..k]] + rest;
      assert |rest| > 0;
      assert forall i :: 1 <= i < |c| ==> c[i] == rest[i - 1];
      assert c[|c| - 1] == rest[|rest| - 1];
      assert (|c| - 1) * k == (|rest| - 1) * k + k;
    }
  }

  /** Division on naturals is determined by the bounds of its quotient. */
  lemma DivUnique(x: nat, k: nat, c: nat)
    requires k >= 1
    requires c * k <= x < c * k + k
    ensures x / k == c
  {
    var q, r := x / k, x % k;
    assert x == q * k + r;
    assert q * k < (c + 1) * k && c * k < (q + 1) * k;
  }

  /** There are ceil(n / k) pieces; in particular none for empty input. */
  lemma ChunksCount<T>(xs: seq<T>, k: nat)
    requires k >= 1
    ensures |Chunks(xs, k)| == CeilDiv(|xs|, k)
  {
    var c := Chunks(xs, k);
    ChunksSizes(xs, k);
    if |c| == 0 {
      assert |xs| == 0;
      DivUnique(k - 1, k, 0);
    } else {
      var n := |xs|;
      assert |c| * k == (|c| - 1) * k + k;
      DivUnique(n + k - 1, k, |c|);
    }
  }

  /** Appending a non-empty batch of at most `k` to `m` full pieces adds that
      batch as the last piece: the step the buffer takes when it flushes. */
  lemma {:induction false} ChunksSnoc<T>(done: seq<T>, batch: seq<T>, k: nat, m: nat)
    requires k >= 1
    requires |done| == m * k
    requires 1 <= |batch| <= k
    ensures Chunks(done + batch, k) == Chunks(done, k) + [batch]
    decreases m
  {
    if m == 0 {
      assert done + batch == batch;
    } else {
      var rest := done[k..];
      assert |rest| == (m - 1) * k;
      ChunksSnoc(rest, batch, k, m - 1);
      assert (done + batch)[..k] == done[..k];
      assert (done + batch)[k..] == rest + batch;
      if m == 1 {
        assert Chunks(done, k) == [done];
        assert done[..k] == done;
      }
    }
  }
}
