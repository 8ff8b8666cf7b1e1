/** The compile-time XXH3: an independent implementation with its own word primitives, its own
    loop order and its own loop bounds. Every entry point returns the value that `Xxh3Hash`
    specifies, hence the value of the runtime implementation. */
module Xxh3Constexpr {
  import opened Arith
  import opened Words
  import opened Multiply
  import opened Xxh3Kernel
  import opened Xxh3Hash
  import opened Xxh3Stripes
  import opened Xxh3Runtime
  import opened ConstexprWords

  /** The inner loop written out in this implementation. */
  const SCALAR: Kernel := Kernel(Accumulate512, Scramble)

  function CMix16B(input: seq<u8>, i: nat, secret: Secret, j: nat, seed: u64): (r: u64)
    requires i + 16 <= |input| && j + 16 <= |secret|
    ensures r == Mix16B(input, i, secret, j, seed)
  {
    CMulFold64(Xor64(CRead64(input, i), Add64(CRead64(secret, j), seed)),
               Xor64(CRead64(input, i + 8), Sub64(CRead64(secret, j + 8), seed)))
  }

  /** This implementation lists the primes again. */
  const C_PRIME32_1: u32 := 0x9E3779B1
  const C_PRIME32_2: u32 := 0x85EBCA77
  const C_PRIME32_3: u32 := 0xC2B2AE3D
  const C_PRIME64_1: u64 := 0x9E3779B185EBCA87
  const C_PRIME64_2: u64 := 0xC2B2AE3D27D4EB4F
  const C_PRIME64_3: u64 := 0x165667B19E3779F9
  const C_PRIME64_4: u64 := 0x85EBCA77C2B2AE63
  const C_PRIME64_5: u64 := 0x27D4EB2F165667C5

  function CAvalanche64(h: u64): (r: u64)
    ensures r == Avalanche64(h)
  {
    var h1 := Mul64(Xor64(h, Shr64(h, 33)), C_PRIME64_2);
    var h2 := Mul64(Xor64(h1, Shr64(h1, 29)), C_PRIME64_3);
    Xor64(h2, Shr64(h2, 32))
  }

  function CAvalanche3(h: u64): (r: u64)
    ensures r == Avalanche3(h)
  {
    var h1 := Mul64(Xor64(h, Shr64(h, 37)), 0x165667919E3779F9);
    Xor64(h1, Shr64(h1, 32))
  }

  function CRrmxmx(h: u64, len: nat): (r: u64)
    ensures r == Rrmxmx(h, len)
  {
    var h1 := Xor64(h, Xor64(Or64(Shl64(h, 49), Shr64(h, 15)), Or64(Shl64(h, 24), Shr64(h, 40))));
    var h2 := Mul64(h1, 0x9FB21C651E98DF25);
    var h3 := Xor64(h2, Add64(Shr64(h2, 35), len));
    var h4 := Mul64(h3, 0x9FB21C651E98DF25);
    Xor64(h4, Shr64(h4, 28))
  }

  /** The cases up to 16 bytes, tested in ascending order. */
  function CLen0to16(input: seq<u8>, secret: Secret, seed: u64): u64
    requires |input| <= 16
  {
    var len := |input|;
    if len == 0 then
      CAvalanche64(Xor64(seed, Xor64(CRead64(secret, 56), CRead64(secret, 64))))
    else if len < 4 then
      var keyed := Xor64(Or32(Or32(Or32(Shl32(input[0], 16), Shl32(input[len / 2], 24)), input[len - 1]),
                              Shl32(len, 8)),
                         Add64(Xor32(CRead32(secret, 0), CRead32(secret, 4)), seed));
      CAvalanche64(keyed)
    else if len <= 8 then
      var keyed := Xor64(Add64(CRead32(input, len - 4), Shl64(CRead32(input, 0), 32)),
                         Sub64(Xor64(CRead64(secret, 8), CRead64(secret, 16)),
                               Xor64(seed, Shl64(CSwap32(seed % TWO32), 32))));
      CRrmxmx(keyed, len)
    else
      var inputLo := Xor64(CRead64(input, 0), Add64(Xor64(CRead64(secret, 24), CRead64(secret, 32)), seed));
      var inputHi := Xor64(CRead64(input, len - 8), Sub64(Xor64(CRead64(secret, 40), CRead64(secret, 48)), seed));
      CAvalanche3(Add64(Add64(Add64(len, CSwap64(inputLo)), inputHi), CMulFold64(inputLo, inputHi)))
  }

  lemma CLen0to16Same(input: seq<u8>, secret: Secret, seed: u64)
    requires |input| <= 16
    ensures CLen0to16(input, secret, seed) == Len0to16(input, secret, seed)
  {
    hide CRead64, CRead32, CSwap32, CSwap64, CMulFold64, CRrmxmx, ReadLE64, ReadLE32, ByteSwap32, ByteSwap64;
    hide MulFold64, Rrmxmx, Xor64, Xor32, Or32, Shl32, Shl64, Add64, Sub64;
    hide Avalanche64, Avalanche3, CAvalanche64, CAvalanche3;
  }

  /** Walks the input from both ends, outermost pair first. */
  method CLen17to128(input: seq<u8>, secret: Secret, seed: u64) returns (h: u64)
    requires 16 < |input| <= 128
    ensures h == Len17to128(input, secret, seed)
  {
    hide CMix16B, Mix16B, Add64, Mul64, Avalanche3, CAvalanche3;
    var acc := Mul64(|input|, C_PRIME64_1);
    var secretOff, i, j := 0, 0, |input|;
    ghost var n := 0;
    while j > i
      invariant i == 16 * n && j == |input| - 16 * n && secretOff == 32 * n && 32 * n < |input| + 32
      invariant acc == PairSum(input, secret, seed, n)
      decreases j
    {
      acc := Add64(acc, CMix16B(input, i, secret, secretOff, seed));
      acc := Add64(acc, CMix16B(input, j - 16, secret, secretOff + 16, seed));
      secretOff := secretOff + 32;
      i, j := i + 16, j - 16;
      n := n + 1;
    }
    assert n == PairCount(|input|);
    return CAvalanche3(acc);
  }

  /** Loops over byte offsets, the second one up to the last whole 16-byte lane. */
  method CLen129to240(input: seq<u8>, secret: Secret, seed: u64) returns (h: u64)
    requires 128 < |input| <= 240
    ensures h == Len129to240(input, secret, seed)
  {
    hide CMix16B, Mix16B, Add64, Mul64, Avalanche3, CAvalanche3;
    var len := |input|;
    var acc := Mul64(len, C_PRIME64_1);
    ghost var acc0 := acc;
    var i := 0;
    ghost var n := 0;
    while i < 128
      invariant i == 16 * n <= 128 && acc == MixRun(acc0, input, 0, secret, 0, seed, n)
    {
      acc := Add64(acc, CMix16B(input, i, secret, i, seed));
      i, n := i + 16, n + 1;
    }
    acc := CAvalanche3(acc);
    ghost var acc1 := acc;
    i := 128;
    n := 0;
    while i < len / 16 * 16
      invariant i == 128 + 16 * n <= len / 16 * 16 && acc == MixRun(acc1, input, 128, secret, 3, seed, n)
    {
      acc := Add64(acc, CMix16B(input, i, secret, (i - 128) + 3, seed));
      i, n := i + 16, n + 1;
    }
    assert n == len / 16 - 8;
    acc := Add64(acc, CMix16B(input, len - 16, secret, SECRET_SIZE_MIN - 17, seed));
    return CAvalanche3(acc);
  }

  /** One block, or part of one: `n` stripes accumulated in place. */
  method CAccumulate(acc: array<u64>, input: seq<u8>, p: nat, secret: Secret, n: nat)
    requires acc.Length == 8
    requires p + 64 * n <= |input| && (n > 0 ==> 8 * n + 56 <= |secret|)
    modifies acc
    ensures acc[..] == Accumulated(SCALAR, old(acc[..]), input, p, secret, 0, n)
  {
    hide Accumulate512, Scramble;
    ghost var start: Acc := acc[..];
    for i := 0 to n
      invariant acc[..] == Accumulated(SCALAR, start, input, p, secret, 0, i)
    {
      AccumulateScalar(acc, input[p + 64 * i..p + 64 * i + 64], secret[8 * i..8 * i + 64]);
    }
  }

  /** The scramble written out in the block loop. */
  method CScramble(acc: array<u64>, secret: Bytes64)
    requires acc.Length == 8
    modifies acc
    ensures acc[..] == Scramble(old(acc[..]), secret)
  {
    ghost var start: Acc := acc[..];
    for i := 0 to 8
      invariant forall j :: 0 <= j < 8 ==>
        acc[j] == if j < i then ScrambleLane(start[j], ReadLE64(secret, 8 * j)) else start[j]
    {
      acc[i] := Mul64(Xor64(Xor64(acc[i], Shr64(acc[i], 47)), CRead64(secret, 8 * i)), C_PRIME32_1);
    }
  }

  method CBlocks(acc: array<u64>, input: seq<u8>, secret: Secret, nbBlocks: nat)
    requires acc.Length == 8 && acc[..] == InitAcc()
    requires 64 * BlockStripes(nbBlocks, StripesPerBlock(secret)) <= |input|
    modifies acc
    ensures Progress(acc[..], 0) == Feed(SCALAR, secret, input, BlockStripes(nbBlocks, StripesPerBlock(secret)))
  {
    hide Accumulated, Feed, StripesPerBlock, BlockStripes, BlockOffset, Accumulate512, Scramble;
    var perBlock := StripesPerBlock(secret);
    FeedStart(SCALAR, secret, input);
    NoBlocks(perBlock);
    for n := 0 to nbBlocks
      invariant 64 * BlockStripes(n, perBlock) <= |input|
      invariant Progress(acc[..], 0) == Feed(SCALAR, secret, input, BlockStripes(n, perBlock))
    {
      NextBlock(n, nbBlocks, perBlock);
      CAccumulate(acc, input, BlockOffset(n, perBlock), secret, perBlock);
      CScramble(acc, secret[|secret| - 64..]);
      FeedToBlockEnd(SCALAR, secret, input, BlockStripes(n, perBlock), perBlock);
    }
  }

  method CHashLong(input: seq<u8>, secret: Secret) returns (h: u64)
    requires |input| > 240
    ensures h == LongHash(SCALAR, input, secret)
  {
    hide LongAcc, MergeAccs, Avalanche3, Mul64, FinishLong;
    var acc := CLongAcc(input, secret);
    h := CMerge(acc[..], secret, |input|);
  }

  method CLongAcc(input: seq<u8>, secret: Secret) returns (acc: array<u64>)
    requires |input| > 240
    ensures acc.Length == 8 && acc[..] == LongAcc(SCALAR, input, secret)
  {
    hide Accumulated, Feed, StripesPerBlock, BlockCount, BlockStripes, BlockOffset, Accumulate512, Scramble;
    acc := new u64[8] [C_PRIME32_3, C_PRIME64_1, C_PRIME64_2, C_PRIME64_3, C_PRIME64_4, C_PRIME32_2, C_PRIME64_5,
                       C_PRIME32_1];
    assert acc[..] == InitAcc();
    var perBlock := StripesPerBlock(secret);
    var nbBlocks := BlockCount(|input|, perBlock);
    SplitIntoBlocks(|input|, perBlock);
    CBlocks(acc, input, secret, nbBlocks);
    var nbStripes := ((|input| - 1) - BlockOffset(nbBlocks, perBlock)) / 64;
    CAccumulate(acc, input, BlockOffset(nbBlocks, perBlock), secret, nbStripes);
    FeedInsideBlock(SCALAR, secret, input, BlockStripes(nbBlocks, perBlock), nbStripes);
    AccumulateScalar(acc, input[|input| - 64..], secret[|secret| - 64 - 7..|secret| - 7]);
  }

  method CMerge(acc: Acc, secret: Secret, len: nat) returns (h: u64)
    ensures h == FinishLong(acc, secret, len)
  {
    hide Avalanche3, MulFold64, CMulFold64, Xor64, ReadLE64, CRead64, Add64, Mul64;
    var result := Mul64(len, C_PRIME64_1);
    for i := 0 to 4
      invariant result == MergeAccs(acc, secret, Mul64(len, C_PRIME64_1), i)
    {
      result := Add64(result, CMulFold64(Xor64(acc[2 * i], CRead64(secret, 11 + 16 * i)),
                                         Xor64(acc[2 * i + 1], CRead64(secret, 11 + 16 * i + 8))));
    }
    return CAvalanche3(result);
  }

  method CHashShort(input: seq<u8>, secret: Secret, seed: u64) returns (h: u64)
    requires |input| <= 240
    ensures h == ShortHash(input, secret, seed)
  {
    hide Len0to16, CLen0to16, Len17to128, Len129to240;
    if |input| <= 16 {
      CLen0to16Same(input, secret, seed);
      h := CLen0to16(input, secret, seed);
    } else if |input| <= 128 {
      h := CLen17to128(input, secret, seed);
    } else {
      h := CLen129to240(input, secret, seed);
    }
  }

  // ---------------------------------------------------------------- entry points

  method Xxh3Const(builtin: Secret192, input: seq<u8>) returns (h: u64)
    ensures h == HashDefault(SCALAR, builtin, input)
  {
    hide ShortHash, LongHash;
    if |input| <= 240 {
      h := CHashShort(input, builtin, 0);
    } else {
      h := CHashLong(input, builtin);
    }
  }

  method Xxh3ConstWithSecret(input: seq<u8>, secret: Secret) returns (h: u64)
    ensures h == HashWithSecret(SCALAR, input, secret)
  {
    hide ShortHash, LongHash;
    if |input| <= 240 {
      h := CHashShort(input, secret, 0);
    } else {
      h := CHashLong(input, secret);
    }
  }

  method Xxh3ConstWithSeed(builtin: Secret192, input: seq<u8>, seed: u64) returns (h: u64)
    ensures h == HashWithSeed(SCALAR, builtin, input, seed)
  {
    hide ShortHash, LongHash, DeriveSecret, HashDefault;
    if seed == 0 {
      h := Xxh3Const(builtin, input);
      ZeroSeedIsDefault(builtin, input);
      return;
    }
    if |input| <= 240 {
      h := CHashShort(input, builtin, seed);
    } else {
      var secret := CDerive(builtin, seed);
      h := CHashLong(input, secret);
    }
  }

  lemma ZeroSeedIsDefault(builtin: Secret192, input: seq<u8>)
    ensures HashWithSeed(SCALAR, builtin, input, 0) == HashDefault(SCALAR, builtin, input)
  {
    hide ShortHash, LongHash;
  }

  /** Steps over the secret 16 bytes at a time. */
  method CDerive(builtin: Secret192, seed: u64) returns (secret: Secret192)
    ensures secret == DeriveSecret(builtin, seed)
  {
    hide DeriveRound, CRead64, ReadLE64, WriteLE64, Add64, Sub64;
    var out: seq<u8> := [];
    var i := 0;
    ghost var n := 0;
    while i < 192
      invariant i == 16 * n <= 192 && out == DeriveRounds(builtin, seed, n)
    {
      RoundBytes(builtin, seed, n);
      out := out + (WriteLE64(Add64(CRead64(builtin, i), seed)) + WriteLE64(Sub64(CRead64(builtin, i + 8), seed)));
      i, n := i + 16, n + 1;
    }
    secret := out;
  }

  /** Both implementations, run on the same input, return the same word, in every mode. */
  method BothImplementations(builtin: Secret192, input: seq<u8>, secret: Secret, seed: u64)
    returns (runtime: seq<u64>, constexpr: seq<u64>)
    ensures runtime == constexpr
    ensures runtime == [HashDefault(SCALAR, builtin, input), HashWithSecret(SCALAR, input, secret),
                        HashWithSeed(SCALAR, builtin, input, seed)]
  {
    hide HashDefault, HashWithSecret, HashWithSeed;
    var r0 := Xxh3Bits64(SCALAR, builtin, input);
    var r1 := Xxh3Bits64WithSecret(SCALAR, input, secret);
    var r2 := Xxh3Bits64WithSeed(SCALAR, builtin, input, seed);
    var c0 := Xxh3Const(builtin, input);
    var c1 := Xxh3ConstWithSecret(input, secret);
    var c2 := Xxh3ConstWithSeed(builtin, input, seed);
    runtime, constexpr := [r0, r1, r2], [c0, c1, c2];
  }
}
