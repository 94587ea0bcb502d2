/** The batches of the run: `devices[i:i + BATCH_SIZE]` for `i` in
    `range(0, len(devices), BATCH_SIZE)`. */
module Batching {

  /** BATCH_SIZE of the run. */
  const BatchSize: nat := 5

  function Min(a: int, b: int): int
  {
    if a < b then a else b
  }

  /** The slices `d[i:i + size]` for `i` = start, start + size, ... while
      `i < |d|`; Python clamps the slice end to `|d|`. */
  function BatchesFrom<T>(d: seq<T>, size: nat, start: nat): (bs: seq<seq<T>>)
    requires size > 0
    ensures forall j :: 0 <= j < |bs| ==> 0 < |bs[j]| <= size
    decreases |d| - start
  {
    if start >= |d| then []
    else [d[start..Min(start + size, |d|)]] + BatchesFrom(d, size, start + size)
  }

  function Batches<T>(d: seq<T>, size: nat): seq<seq<T>>
    requires size > 0
  {
    BatchesFrom(d, size, 0)
  }

  /** The concatenation of a list of lists. */
  function Concat<T>(bs: seq<seq<T>>): (r: seq<T>)
  {
    if bs == [] then [] else bs[0] + Concat(bs[1..])
  }

  lemma {:induction false} ConcatAppend<T>(a: seq<seq<T>>, b: seq<seq<T>>)
    ensures Concat(a + b) == Concat(a) + Concat(b)
  {
    if a == [] {
      assert a + b == b;
    } else {
      assert (a + b)[1..] == a[1..] + b;
      ConcatAppend(a[1..], b);
    }
  }

  /** Joining one more list onto the first `b` extends their
      concatenation by that list. */
  lemma ConcatSnoc<T>(L: seq<seq<T>>, b: nat)
    requires b < |L|
    ensures Concat(L[..b + 1]) == Concat(L[..b]) + L[b]
  {
    assert L[..b + 1] == L[..b] + [L[b]];
    ConcatAppend(L[..b], [L[b]]);
    assert [L[b]][1..] == [];
  }

  /** The batches, joined back together, are the work list from `start`
      on: every label lands in exactly one batch, in order. */
  lemma {:induction false} BatchesCover<T>(d: seq<T>, size: nat, start: nat)
    requires size > 0 && start <= |d|
    ensures Concat(BatchesFrom(d, size, start)) == d[start..]
    decreases |d| - start
  {
    if start < |d| {
      var next := Min(start + size, |d|);
      if start + size < |d| {
        BatchesCover(d, size, start + size);
      } else {
        assert BatchesFrom(d, size, start + size) == [];
      }
      var bs := BatchesFrom(d, size, start);
      assert bs[1..] == BatchesFrom(d, size, start + size);
      assert d[start..] == d[start..next] + d[next..];
    }
  }

  /** The number of batches is the least `k` with `k * size >= |d| - start`,
      which is ceil((|d| - start) / size). */
  lemma {:induction false} BatchCount<T>(d: seq<T>, size: nat, start: nat)
    requires size > 0 && start <= |d|
    ensures var k := |BatchesFrom(d, size, start)|;
            k * size >= |d| - start && (k == 0 || (k - 1) * size < |d| - start)
    decreases |d| - start
  {
    if start < |d| {
      var k := |BatchesFrom(d, size, start)|;
      if start + size < |d| {
        BatchCount(d, size, start + size);
      } else {
        assert BatchesFrom(d, size, start + size) == [];
      }
      assert (k - 1) * size + size == k * size;
    }
  }

  /** Batch `j` is exactly the source's slice `d[i:i + size]` at
      `i = start + j * size`. */
  lemma {:induction false} BatchAt<T>(d: seq<T>, size: nat, start: nat, j: nat)
    requires size > 0 && j < |BatchesFrom(d, size, start)|
    ensures start + j * size < |d|
    ensures BatchesFrom(d, size, start)[j] == d[start + j * size..Min(start + j * size + size, |d|)]
    decreases j
  {
    if j > 0 {
      BatchAt(d, size, start + size, j - 1);
      assert start + size + (j - 1) * size == start + j * size;
    }
  }

  /** With the run's batch size, the count is (n + 4) / 5. */
  lemma RunBatchCount<T>(d: seq<T>)
    ensures |Batches(d, BatchSize)| == (|d| + BatchSize - 1) / BatchSize
  {
    BatchCount(d, BatchSize, 0);
  }

  /** Seven labels make two batches, of five and of two. */
  lemma SevenLabelsTwoBatches<T>(d: seq<T>)
    requires |d| == 7
    ensures Batches(d, BatchSize) == [d[..5], d[5..]]
  {
    assert BatchesFrom(d, BatchSize, 10) == [];
    assert BatchesFrom(d, BatchSize, 5) == [d[5..7]];
    assert d[5..7] == d[5..] && d[0..5] == d[..5];
    assert BatchesFrom(d, BatchSize, 0) == [d[0..5]] + [d[5..7]];
  }
}
