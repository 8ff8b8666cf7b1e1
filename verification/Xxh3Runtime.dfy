/** The runtime one-shot implementation, loop by loop, proved to return the values that
    `Xxh3Hash` specifies. */
module Xxh3Runtime {
  import opened Arith
  import opened Words
  import opened Multiply
  import opened Xxh3Kernel
  import opened Xxh3Hash
  import opened Xxh3Stripes

  // ---------------------------------------------------------------- 17 to 128 bytes

  /** The nested conditionals of the source: the innermost pair of the input is added first. */
  function PairsInsideOut(input: seq<u8>, secret: Secret, seed: u64): u64
    requires 16 < |input| <= 128
  {
    var len := |input|;
    var a0 := Mul64(len, PRIME64_1);
    var a1 := if len > 96 then AddPair(a0, input, secret, seed, 3) else a0;
    var a2 := if len > 64 then AddPair(a1, input, secret, seed, 2) else a1;
    var a3 := if len > 32 then AddPair(a2, input, secret, seed, 1) else a2;
    AddPair(a3, input, secret, seed, 0)
  }

  function AddPair(acc: u64, input: seq<u8>, secret: Secret, seed: u64, i: nat): u64
    requires 16 < |input| <= 128 && 32 * i < |input|
  {
    Add64(Add64(acc, FrontMix(input, secret, seed, i)), BackMix(input, secret, seed, i))
  }

  function FrontMix(input: seq<u8>, secret: Secret, seed: u64, i: nat): u64
    requires 16 < |input| <= 128 && 32 * i < |input|
  {
    Mix16B(input, 16 * i, secret, 32 * i, seed)
  }

  function BackMix(input: seq<u8>, secret: Secret, seed: u64, i: nat): u64
    requires 16 < |input| <= 128 && 32 * i < |input|
  {
    Mix16B(input, |input| - 16 * (i + 1), secret, 32 * i + 16, seed)
  }

  lemma PairSumStep(input: seq<u8>, secret: Secret, seed: u64, n: nat)
    requires 16 < |input| <= 128 && 32 * n < |input|
    ensures PairSum(input, secret, seed, n + 1) == AddPair(PairSum(input, secret, seed, n), input, secret, seed, n)
  {
    hide Mix16B, Add64;
  }

  lemma AddPairsSwap(acc: u64, input: seq<u8>, secret: Secret, seed: u64, i: nat, j: nat)
    requires 16 < |input| <= 128 && 32 * i < |input| && 32 * j < |input|
    ensures AddPair(AddPair(acc, input, secret, seed, i), input, secret, seed, j)
            == AddPair(AddPair(acc, input, secret, seed, j), input, secret, seed, i)
  {
    hide FrontMix, BackMix, Add64;
    var fi, bi := FrontMix(input, secret, seed, i), BackMix(input, secret, seed, i);
    var fj, bj := FrontMix(input, secret, seed, j), BackMix(input, secret, seed, j);
    SumOfPairs(acc, fi, bi, fj, bj);
    SumOfPairs(acc, fj, bj, fi, bi);
  }

  lemma SumOfPairs(acc: u64, a: u64, b: u64, c: u64, d: u64)
    ensures Add64(Add64(Add64(Add64(acc, a), b), c), d) == (acc + a + b + c + d) % TWO64
  {
    WrapSum4(acc, a, b, c, d);
  }

  /** Adding the pairs from the inside out gives the same sum as from the outside in. */
  lemma PairOrderIrrelevant(input: seq<u8>, secret: Secret, seed: u64)
    requires 16 < |input| <= 128
    ensures PairsInsideOut(input, secret, seed) == PairSum(input, secret, seed, PairCount(|input|))
  {
    hide AddPair, PairSum;
    var len := |input|;
    var a0 := Mul64(len, PRIME64_1);
    PairSumZero(input, secret, seed);
    PairSumStep(input, secret, seed, 0);
    if len > 32 {
      PairSumStep(input, secret, seed, 1);
      AddPairsSwap(a0, input, secret, seed, 0, 1);
    }
    if len > 64 {
      PairSumStep(input, secret, seed, 2);
      AddPairsSwap(a0, input, secret, seed, 0, 2);
      AddPairsSwap(AddPair(a0, input, secret, seed, 0), input, secret, seed, 1, 2);
      AddPairsSwap(AddPair(a0, input, secret, seed, 2), input, secret, seed, 0, 1);
    }
    if len > 96 {
      PairSumStep(input, secret, seed, 3);
      var b := AddPair(a0, input, secret, seed, 0);
      AddPairsSwap(AddPair(b, input, secret, seed, 1), input, secret, seed, 2, 3);
      AddPairsSwap(b, input, secret, seed, 1, 3);
      AddPairsSwap(a0, input, secret, seed, 0, 3);
      var d := AddPair(a0, input, secret, seed, 3);
      AddPairsSwap(AddPair(d, input, secret, seed, 0), input, secret, seed, 1, 2);
      AddPairsSwap(d, input, secret, seed, 0, 2);
      AddPairsSwap(AddPair(d, input, secret, seed, 2), input, secret, seed, 0, 1);
    }
  }

  lemma PairSumZero(input: seq<u8>, secret: Secret, seed: u64)
    requires 16 < |input| <= 128
    ensures PairSum(input, secret, seed, 0) == Mul64(|input|, PRIME64_1)
  {
  }

  // ---------------------------------------------------------------- 129 to 240 bytes

  method HashLen129to240(input: seq<u8>, secret: Secret, seed: u64) returns (h: u64)
    requires 128 < |input| <= 240
    ensures h == Len129to240(input, secret, seed)
  {
    hide Mix16B, Avalanche3, Add64, Mul64;
    var len := |input|;
    var acc := Mul64(len, PRIME64_1);
    var nbRounds := len / 16;
    ghost var acc0 := acc;
    for i := 0 to 8
      invariant acc == MixRun(acc0, input, 0, secret, 0, seed, i)
    {
      acc := Add64(acc, Mix16B(input, 16 * i, secret, 16 * i, seed));
    }
    acc := Avalanche3(acc);
    ghost var acc1 := acc;
    assert nbRounds >= 8;
    for i := 8 to nbRounds
      invariant acc == MixRun(acc1, input, 128, secret, 3, seed, i - 8)
    {
      acc := Add64(acc, Mix16B(input, 16 * i, secret, 16 * (i - 8) + 3, seed));
    }
    acc := Add64(acc, Mix16B(input, len - 16, secret, SECRET_SIZE_MIN - 17, seed));
    return Avalanche3(acc);
  }

  // ---------------------------------------------------------------- long inputs

  method HashLongLoop(k: Kernel, input: seq<u8>, secret: Secret) returns (acc: Acc)
    requires |input| > 240
    ensures acc == LongAcc(k, input, secret)
  {
    hide Accumulated, Feed, StripesPerBlock, BlockCount, BlockStripes, BlockOffset;
    var perBlock := StripesPerBlock(secret);
    var nbBlocks := BlockCount(|input|, perBlock);
    SplitIntoBlocks(|input|, perBlock);
    acc := HashBlocks(k, input, secret, nbBlocks);
    var nbStripes := ((|input| - 1) - BlockOffset(nbBlocks, perBlock)) / 64;
    acc := Accumulate(k, acc, input, BlockOffset(nbBlocks, perBlock), secret, 0, nbStripes);
    FeedInsideBlock(k, secret, input, BlockStripes(nbBlocks, perBlock), nbStripes);
    acc := k.accumulate(acc, input[|input| - 64..], secret[|secret| - 64 - 7..|secret| - 7]);
  }

  /** The loop over whole blocks of `XXH3_hashLong_internal_loop`. */
  method HashBlocks(k: Kernel, input: seq<u8>, secret: Secret, nbBlocks: nat) returns (acc: Acc)
    requires 64 * BlockStripes(nbBlocks, StripesPerBlock(secret)) <= |input|
    ensures Progress(acc, 0) == Feed(k, secret, input, BlockStripes(nbBlocks, StripesPerBlock(secret)))
  {
    hide Accumulated, Feed, StripesPerBlock, BlockStripes, BlockOffset;
    var perBlock := StripesPerBlock(secret);
    FeedStart(k, secret, input);
    NoBlocks(perBlock);
    acc := InitAcc();
    for n := 0 to nbBlocks
      invariant 64 * BlockStripes(n, perBlock) <= |input|
      invariant Progress(acc, 0) == Feed(k, secret, input, BlockStripes(n, perBlock))
    {
      NextBlock(n, nbBlocks, perBlock);
      acc := Accumulate(k, acc, input, BlockOffset(n, perBlock), secret, 0, perBlock);
      acc := k.scramble(acc, secret[|secret| - 64..]);
      FeedToBlockEnd(k, secret, input, BlockStripes(n, perBlock), perBlock);
    }
  }

  lemma FeedStart(k: Kernel, secret: Secret, input: seq<u8>)
    ensures Feed(k, secret, input, 0) == Progress(InitAcc(), 0)
  {
  }

  method MergeAccumulators(acc: Acc, secret: Secret, start: u64) returns (h: u64)
    ensures h == Avalanche3(MergeAccs(acc, secret, start, 4))
  {
    hide Avalanche3, MulFold64, Xor64, ReadLE64, Add64;
    var result := start;
    for i := 0 to 4
      invariant result == MergeAccs(acc, secret, start, i)
    {
      result := Add64(result, MulFold64(Xor64(acc[2 * i], ReadLE64(secret, 11 + 16 * i)),
                                        Xor64(acc[2 * i + 1], ReadLE64(secret, 11 + 16 * i + 8))));
    }
    return Avalanche3(result);
  }

  method HashLong(k: Kernel, input: seq<u8>, secret: Secret) returns (h: u64)
    requires |input| > 240
    ensures h == LongHash(k, input, secret)
  {
    hide LongAcc, MergeAccs, Avalanche3, Mul64;
    var acc := HashLongLoop(k, input, secret);
    h := MergeAccumulators(acc, secret, Mul64(|input|, PRIME64_1));
  }

  // ---------------------------------------------------------------- dispatch and entry points

  method HashShort(input: seq<u8>, secret: Secret, seed: u64) returns (h: u64)
    requires |input| <= 240
    ensures h == ShortHash(input, secret, seed)
  {
    hide Len0to16, Len129to240, PairsInsideOut, PairSum, Avalanche3, PairCount;
    if |input| <= 16 {
      return Len0to16(input, secret, seed);
    }
    if |input| <= 128 {
      PairOrderIrrelevant(input, secret, seed);
      return Avalanche3(PairsInsideOut(input, secret, seed));
    }
    h := HashLen129to240(input, secret, seed);
  }

  method Xxh3Bits64(k: Kernel, builtin: Secret192, input: seq<u8>) returns (h: u64)
    ensures h == HashDefault(k, builtin, input)
  {
    hide ShortHash, LongHash;
    if |input| <= MIDSIZE_MAX {
      h := HashShort(input, builtin, 0);
    } else {
      h := HashLong(k, input, builtin);
    }
  }

  method Xxh3Bits64WithSecret(k: Kernel, input: seq<u8>, secret: Secret) returns (h: u64)
    ensures h == HashWithSecret(k, input, secret)
  {
    hide ShortHash, LongHash;
    if |input| <= MIDSIZE_MAX {
      h := HashShort(input, secret, 0);
    } else {
      h := HashLong(k, input, secret);
    }
  }

  method Xxh3Bits64WithSeed(k: Kernel, builtin: Secret192, input: seq<u8>, seed: u64) returns (h: u64)
    ensures h == HashWithSeed(k, builtin, input, seed)
  {
    hide ShortHash, LongHash, DeriveSecret;
    if |input| <= MIDSIZE_MAX {
      h := HashShort(input, builtin, seed);
    } else if seed == 0 {
      h := HashLong(k, input, builtin);
    } else {
      var secret := new u8[192];
      InitCustomSecret(builtin, secret, seed);
      h := HashLong(k, input, secret[..]);
    }
  }

  method Xxh3Bits64WithSecretAndSeed(k: Kernel, builtin: Secret192, input: seq<u8>, secret: Secret, seed: u64)
    returns (h: u64)
    ensures h == HashWithSecretAndSeed(k, builtin, input, secret, seed)
  {
    hide ShortHash, LongHash;
    if |input| <= MIDSIZE_MAX {
      h := HashShort(input, builtin, seed);
    } else {
      h := HashLong(k, input, secret);
    }
  }

  /** Write the secret derived from `seed` into a 192-byte buffer, 16 bytes per round. */
  method InitCustomSecret(builtin: Secret192, customSecret: array<u8>, seed: u64)
    requires customSecret.Length == 192
    modifies customSecret
    ensures customSecret[..] == DeriveSecret(builtin, seed)
  {
    hide DeriveRound, ReadLE64, WriteLE64, Add64, Sub64;
    for i := 0 to 12
      invariant customSecret[..16 * i] == DeriveRounds(builtin, seed, i)
    {
      ghost var before := customSecret[..16 * i];
      var round := WriteLE64(Add64(ReadLE64(builtin, 16 * i), seed))
          + WriteLE64(Sub64(ReadLE64(builtin, 16 * i + 8), seed));
      RoundBytes(builtin, seed, i);
      forall j | 0 <= j < 16 {
        customSecret[16 * i + j] := round[j];
      }
      assert customSecret[..16 * (i + 1)] == before + round;
    }
    assert customSecret[..] == customSecret[..16 * 12];
  }

  lemma RoundBytes(builtin: Secret192, seed: u64, i: nat)
    requires i < 12
    ensures DeriveRound(builtin, seed, i)
            == WriteLE64(Add64(ReadLE64(builtin, 16 * i), seed)) + WriteLE64(Sub64(ReadLE64(builtin, 16 * i + 8), seed))
  {
  }
}
