/** Runs of stripes: how the block-wise loops over stripes relate to `Xxh3Hash.Feed`, which
    takes in one stripe at a time. */
module Xxh3Stripes {
  import opened Arith
  import opened Words
  import opened Xxh3Kernel
  import opened Xxh3Hash

  /** `n` stripes from `input[p..]` with secret windows from `secret[q..]`, no scramble. */
  function Accumulated(k: Kernel, acc: Acc, input: seq<u8>, p: nat, secret: Secret, q: nat, n: nat): Acc
    requires p + 64 * n <= |input|
    requires n > 0 ==> q + 8 * n + 56 <= |secret|
  {
    if n == 0 then acc
    else k.accumulate(Accumulated(k, acc, input, p, secret, q, n - 1),
                      input[p + 64 * (n - 1)..p + 64 * n],
                      secret[q + 8 * (n - 1)..q + 8 * (n - 1) + 64])
  }

  method Accumulate(k: Kernel, acc0: Acc, input: seq<u8>, p: nat, secret: Secret, q: nat, nbStripes: nat)
    returns (acc: Acc)
    requires p + 64 * nbStripes <= |input|
    requires nbStripes > 0 ==> q + 8 * nbStripes + 56 <= |secret|
    ensures acc == Accumulated(k, acc0, input, p, secret, q, nbStripes)
  {
    acc := acc0;
    for n := 0 to nbStripes
      invariant acc == Accumulated(k, acc0, input, p, secret, q, n)
    {
      acc := k.accumulate(acc, input[p + 64 * n..p + 64 * n + 64], secret[q + 8 * n..q + 8 * n + 64]);
    }
  }

  /** Only the bytes read matter, not where they lie. */
  lemma {:induction false} AccumulatedSameBytes(k: Kernel, acc: Acc, a: seq<u8>, p: nat, b: seq<u8>, r: nat,
                                                secret: Secret, q: nat, n: nat)
    requires p + 64 * n <= |a| && r + 64 * n <= |b|
    requires a[p..p + 64 * n] == b[r..r + 64 * n]
    requires n > 0 ==> q + 8 * n + 56 <= |secret|
    ensures Accumulated(k, acc, a, p, secret, q, n) == Accumulated(k, acc, b, r, secret, q, n)
  {
    if n != 0 {
      var m := 64 * (n - 1);
      assert a[p..p + m] == a[p..p + 64 * n][..m] == b[r..r + 64 * n][..m] == b[r..r + m];
      AccumulatedSameBytes(k, acc, a, p, b, r, secret, q, n - 1);
      assert a[p + m..p + 64 * n] == a[p..p + 64 * n][m..] == b[r..r + 64 * n][m..] == b[r + m..r + 64 * n];
    }
  }

  lemma FeedStep(k: Kernel, secret: Secret, input: seq<u8>, n: nat)
    requires n > 0 && 64 * n <= |input|
    ensures Feed(k, secret, input, n)
        == FeedStripe(k, secret, Feed(k, secret, input, n - 1), input[64 * (n - 1)..64 * n])
  {
  }

  /** A run that stays inside the current block is plain accumulation. */
  lemma {:induction false} FeedInsideBlock(k: Kernel, secret: Secret, input: seq<u8>, c: nat, n: nat)
    requires 64 * (c + n) <= |input|
    requires Feed(k, secret, input, c).soFar + n < StripesPerBlock(secret)
    ensures
      var s := Feed(k, secret, input, c);
      Feed(k, secret, input, c + n)
          == Progress(Accumulated(k, s.acc, input, 64 * c, secret, 8 * s.soFar, n), s.soFar + n)
  {
    hide StripesPerBlock, Feed;
    if n != 0 {
      FeedInsideBlock(k, secret, input, c, n - 1);
      FeedStep(k, secret, input, c + n);
      assert 64 * (c + n - 1) == 64 * c + 64 * (n - 1) && 64 * (c + n) == 64 * c + 64 * n;
    }
  }

  lemma AccumulatedStep(k: Kernel, acc: Acc, input: seq<u8>, p: nat, secret: Secret, q: nat, n: nat)
    requires n > 0 && p + 64 * n <= |input| && q + 8 * n + 56 <= |secret|
    ensures Accumulated(k, acc, input, p, secret, q, n)
            == k.accumulate(Accumulated(k, acc, input, p, secret, q, n - 1),
                            input[p + 64 * (n - 1)..p + 64 * n], secret[q + 8 * (n - 1)..q + 8 * (n - 1) + 64])
  {
  }

  /** A run that ends with the block is accumulation followed by one scramble. */
  lemma FeedToBlockEnd(k: Kernel, secret: Secret, input: seq<u8>, c: nat, n: nat)
    requires n > 0 && 64 * (c + n) <= |input|
    requires Feed(k, secret, input, c).soFar + n == StripesPerBlock(secret)
    ensures
      var s := Feed(k, secret, input, c);
      Feed(k, secret, input, c + n)
      == Progress(k.scramble(Accumulated(k, s.acc, input, 64 * c, secret, 8 * s.soFar, n), secret[|secret| - 64..]), 0)
  {
    hide StripesPerBlock, Accumulated, Feed;
    FeedInsideBlock(k, secret, input, c, n - 1);
    var s := Feed(k, secret, input, c);
    AccumulatedStep(k, s.acc, input, 64 * c, secret, 8 * s.soFar, n);
    FeedStep(k, secret, input, c + n);
    assert 64 * (c + n - 1) == 64 * c + 64 * (n - 1) && 64 * (c + n) == 64 * c + 64 * n;
  }

  /** Stripes already taken in do not change when more input arrives. */
  lemma {:induction false} FeedOfPrefix(k: Kernel, secret: Secret, input: seq<u8>, more: seq<u8>, n: nat)
    requires 64 * n <= |input|
    ensures Feed(k, secret, input + more, n) == Feed(k, secret, input, n)
  {
    if n != 0 {
      FeedOfPrefix(k, secret, input, more, n - 1);
      assert (input + more)[64 * (n - 1)..64 * n] == input[64 * (n - 1)..64 * n];
    }
  }

  // ---------------------------------------------------------------- blocks

  /** The whole blocks of an input, leaving at least one byte. */
  function BlockCount(len: nat, perBlock: nat): nat
    requires len > 0 && perBlock > 0
  {
    DivBound(len - 1, 64 * perBlock);
    (len - 1) / (64 * perBlock)
  }

  function BlockStripes(blocks: nat, perBlock: nat): nat { blocks * perBlock }

  function BlockOffset(blocks: nat, perBlock: nat): nat { blocks * (64 * perBlock) }

  lemma SplitIntoBlocks(len: nat, perBlock: nat)
    requires len > 0 && perBlock > 0
    ensures
      var blocks := BlockCount(len, perBlock);
      var stripes := BlockStripes(blocks, perBlock);
      && BlockOffset(blocks, perBlock) == 64 * stripes < len
      && (len - 1) / 64 == stripes + (len - 1 - 64 * stripes) / 64
      && (len - 1 - 64 * stripes) / 64 < perBlock
  {
    var blocks := BlockCount(len, perBlock);
    StripeCount(len - 1, perBlock, blocks, BlockStripes(blocks, perBlock));
  }

  lemma NextBlock(n: nat, blocks: nat, perBlock: nat)
    requires n < blocks
    ensures BlockOffset(n, perBlock) == 64 * BlockStripes(n, perBlock)
    ensures BlockStripes(n + 1, perBlock) == BlockStripes(n, perBlock) + perBlock <= BlockStripes(blocks, perBlock)
  {
    BlockFits(n, blocks, perBlock, BlockStripes(n, perBlock), BlockStripes(blocks, perBlock));
  }

  lemma NoBlocks(perBlock: nat)
    ensures BlockStripes(0, perBlock) == 0
  {
  }

  /** `XXH3_consumeStripes`: at most one scramble per call. `data` is the whole input so far, `c`
      the number of its stripes already taken in; `input[p..]` holds the next ones. */
  method ConsumeStripes(k: Kernel, acc0: Acc, soFar0: nat, input: seq<u8>, p: nat, nbStripes: nat, secret: Secret,
                        ghost data: seq<u8>, ghost c: nat)
    returns (acc: Acc, soFar: nat)
    requires nbStripes <= StripesPerBlock(secret)
    requires 64 * (c + nbStripes) <= |data|
    requires Progress(acc0, soFar0) == Feed(k, secret, data, c)
    requires p + 64 * nbStripes <= |input|
    requires input[p..p + 64 * nbStripes] == data[64 * c..64 * (c + nbStripes)]
    ensures Progress(acc, soFar) == Feed(k, secret, data, c + nbStripes)
  {
    hide Accumulated, Feed, StripesPerBlock;
    var perBlock := StripesPerBlock(secret);
    if perBlock - soFar0 <= nbStripes {
      var toEnd := perBlock - soFar0;
      var after := nbStripes - toEnd;
      acc := Accumulate(k, acc0, input, p, secret, 8 * soFar0, toEnd);
      SplitRun(input, p, data, c, toEnd, after);
      AccumulatedSameBytes(k, acc0, input, p, data, 64 * c, secret, 8 * soFar0, toEnd);
      acc := k.scramble(acc, secret[|secret| - 64..]);
      FeedToBlockEnd(k, secret, data, c, toEnd);
      ghost var acc1 := acc;
      acc := Accumulate(k, acc, input, p + 64 * toEnd, secret, 0, after);
      AccumulatedSameBytes(k, acc1, input, p + 64 * toEnd, data, 64 * (c + toEnd), secret, 0, after);
      FeedInsideBlock(k, secret, data, c + toEnd, after);
      soFar := after;
    } else {
      acc := Accumulate(k, acc0, input, p, secret, 8 * soFar0, nbStripes);
      SplitRun(input, p, data, c, nbStripes, 0);
      AccumulatedSameBytes(k, acc0, input, p, data, 64 * c, secret, 8 * soFar0, nbStripes);
      FeedInsideBlock(k, secret, data, c, nbStripes);
      soFar := soFar0 + nbStripes;
    }
  }

  lemma SplitRun(input: seq<u8>, p: nat, data: seq<u8>, c: nat, m: nat, n: nat)
    requires p + 64 * (m + n) <= |input| && 64 * (c + m + n) <= |data|
    requires input[p..p + 64 * (m + n)] == data[64 * c..64 * (c + m + n)]
    ensures input[p..p + 64 * m] == data[64 * c..64 * c + 64 * m]
    ensures input[p + 64 * m..p + 64 * m + 64 * n] == data[64 * (c + m)..64 * (c + m) + 64 * n]
  {
    var x, y := input[p..p + 64 * (m + n)], data[64 * c..64 * (c + m + n)];
    assert x[..64 * m] == input[p..p + 64 * m] && y[..64 * m] == data[64 * c..64 * c + 64 * m];
    assert x[64 * m..] == input[p + 64 * m..p + 64 * m + 64 * n];
    assert y[64 * m..] == data[64 * (c + m)..64 * (c + m) + 64 * n];
  }
}
