/** The one-shot XXH3 64-bit hash: the value the hash is defined to have, for every length and mode.
    Long inputs are specified stripe by stripe (`Feed`), without any block structure. */
module Xxh3Hash {
  import opened Arith
  import opened Words
  import opened Multiply
  import opened Xxh3Kernel

  const PRIME32_2: u32 := 0x85EBCA77
  const PRIME32_3: u32 := 0xC2B2AE3D
  const PRIME64_1: u64 := 0x9E3779B185EBCA87
  const PRIME64_2: u64 := 0xC2B2AE3D27D4EB4F
  const PRIME64_3: u64 := 0x165667B19E3779F9
  const PRIME64_4: u64 := 0x85EBCA77C2B2AE63
  const PRIME64_5: u64 := 0x27D4EB2F165667C5

  const SECRET_SIZE_MIN := 136
  const SECRET_DEFAULT_SIZE := 192
  const MIDSIZE_MAX := 240

  /** A secret the hash accepts; shorter ones are refused by the callers. */
  type Secret = s: seq<u8> | |s| >= 136 witness seq(136, _ => 0)
  /** The size of the built-in secret and of secrets derived from a seed. */
  type Secret192 = s: seq<u8> | |s| == 192 witness seq(192, _ => 0)

  /** The two inner-loop routines, which the source passes around as function pointers. */
  datatype Kernel = Kernel(accumulate: (Acc, Bytes64, Bytes64) -> Acc, scramble: (Acc, Bytes64) -> Acc)

  // ---------------------------------------------------------------- mixing steps

  function XorShift64(v: u64, n: nat): u64 { Xor64(v, Shr64(v, n)) }

  function Avalanche64(h: u64): u64
  {
    var h1 := Mul64(XorShift64(h, 33), PRIME64_2);
    var h2 := Mul64(XorShift64(h1, 29), PRIME64_3);
    XorShift64(h2, 32)
  }

  function Avalanche3(h: u64): u64
  {
    XorShift64(Mul64(XorShift64(h, 37), 0x165667919E3779F9), 32)
  }

  function Rrmxmx(h: u64, len: nat): u64
  {
    var h1 := Xor64(h, Xor64(Rotl64(h, 49), Rotl64(h, 24)));
    var h2 := Mul64(h1, 0x9FB21C651E98DF25);
    var h3 := Xor64(h2, Add64(Shr64(h2, 35), len));
    XorShift64(Mul64(h3, 0x9FB21C651E98DF25), 28)
  }

  function Mix16B(input: seq<u8>, i: nat, secret: Secret, j: nat, seed: u64): u64
    requires i + 16 <= |input| && j + 16 <= |secret|
  {
    MulFold64(Xor64(ReadLE64(input, i), Add64(ReadLE64(secret, j), seed)),
              Xor64(ReadLE64(input, i + 8), Sub64(ReadLE64(secret, j + 8), seed)))
  }

  // ---------------------------------------------------------------- up to 16 bytes

  function Len0to16(input: seq<u8>, secret: Secret, seed: u64): u64
    requires |input| <= 16
  {
    if |input| > 8 then Len9to16(input, secret, seed)
    else if |input| >= 4 then Len4to8(input, secret, seed)
    else if |input| > 0 then Len1to3(input, secret, seed)
    else Avalanche64(Xor64(seed, Xor64(ReadLE64(secret, 56), ReadLE64(secret, 64))))
  }

  function Len1to3(input: seq<u8>, secret: Secret, seed: u64): u64
    requires 1 <= |input| <= 3
  {
    var len := |input|;
    var c1, c2, c3 := input[0], input[len / 2], input[len - 1];
    var combined := Or32(Or32(Or32(Shl32(c1, 16), Shl32(c2, 24)), c3), Shl32(len, 8));
    var bitflip := Add64(Xor32(ReadLE32(secret, 0), ReadLE32(secret, 4)), seed);
    Avalanche64(Xor64(combined, bitflip))
  }

  function Len4to8(input: seq<u8>, secret: Secret, seed: u64): u64
    requires 4 <= |input| <= 8
  {
    var len := |input|;
    var seed' := Xor64(seed, Shl64(ByteSwap32(seed % TWO32), 32));
    var input1, input2 := ReadLE32(input, 0), ReadLE32(input, len - 4);
    var bitflip := Sub64(Xor64(ReadLE64(secret, 8), ReadLE64(secret, 16)), seed');
    var input64 := Add64(input2, Shl64(input1, 32));
    Rrmxmx(Xor64(input64, bitflip), len)
  }

  function Len9to16(input: seq<u8>, secret: Secret, seed: u64): u64
    requires 9 <= |input| <= 16
  {
    var len := |input|;
    var bitflip1 := Add64(Xor64(ReadLE64(secret, 24), ReadLE64(secret, 32)), seed);
    var bitflip2 := Sub64(Xor64(ReadLE64(secret, 40), ReadLE64(secret, 48)), seed);
    var inputLo := Xor64(ReadLE64(input, 0), bitflip1);
    var inputHi := Xor64(ReadLE64(input, len - 8), bitflip2);
    Avalanche3(Add64(Add64(Add64(len, ByteSwap64(inputLo)), inputHi), MulFold64(inputLo, inputHi)))
  }

  // ---------------------------------------------------------------- 17 to 240 bytes

  /** `acc` plus the mixes of the first `n` pairs, one from each end of the input. */
  function PairSum(input: seq<u8>, secret: Secret, seed: u64, n: nat): u64
    requires 16 < |input| <= 128
    requires 32 * n < |input| + 32
  {
    if n == 0 then Mul64(|input|, PRIME64_1)
    else
      Add64(Add64(PairSum(input, secret, seed, n - 1),
                  Mix16B(input, 16 * (n - 1), secret, 32 * (n - 1), seed)),
            Mix16B(input, |input| - 16 * n, secret, 32 * (n - 1) + 16, seed))
  }

  function PairCount(len: nat): nat { (len + 31) / 32 }

  function Len17to128(input: seq<u8>, secret: Secret, seed: u64): u64
    requires 16 < |input| <= 128
  {
    Avalanche3(PairSum(input, secret, seed, PairCount(|input|)))
  }

  /** `acc` plus `n` consecutive 16-byte mixes. */
  function MixRun(acc: u64, input: seq<u8>, i: nat, secret: Secret, j: nat, seed: u64, n: nat): u64
    requires i + 16 * n <= |input| && j + 16 * n <= |secret|
  {
    if n == 0 then acc
    else Add64(MixRun(acc, input, i, secret, j, seed, n - 1),
               Mix16B(input, i + 16 * (n - 1), secret, j + 16 * (n - 1), seed))
  }

  function Len129to240(input: seq<u8>, secret: Secret, seed: u64): u64
    requires 128 < |input| <= 240
  {
    var len := |input|;
    var first := Avalanche3(MixRun(Mul64(len, PRIME64_1), input, 0, secret, 0, seed, 8));
    var rest := MixRun(first, input, 128, secret, 3, seed, len / 16 - 8);
    Avalanche3(Add64(rest, Mix16B(input, len - 16, secret, SECRET_SIZE_MIN - 17, seed)))
  }

  function ShortHash(input: seq<u8>, secret: Secret, seed: u64): u64
    requires |input| <= 240
  {
    if |input| <= 16 then Len0to16(input, secret, seed)
    else if |input| <= 128 then Len17to128(input, secret, seed)
    else Len129to240(input, secret, seed)
  }

  // ---------------------------------------------------------------- long inputs

  function InitAcc(): Acc
  {
    [PRIME32_3, PRIME64_1, PRIME64_2, PRIME64_3, PRIME64_4, PRIME32_2, PRIME64_5, PRIME32_1]
  }

  function StripesPerBlock(secret: Secret): (r: nat)
    ensures r >= 9 && 8 * r <= |secret| - 64 < 8 * r + 8
  {
    (|secret| - 64) / 8
  }

  /** Accumulators, and the number of stripes taken in since the last scramble. */
  datatype Progress = Progress(acc: Acc, soFar: nat)

  /** Take in one stripe: the secret window moves 8 bytes per stripe, and the stripe that
      completes a block is followed by a scramble. */
  function FeedStripe(k: Kernel, secret: Secret, p: Progress, stripe: Bytes64): Progress
    requires p.soFar < StripesPerBlock(secret)
  {
    var a := k.accumulate(p.acc, stripe, secret[8 * p.soFar..8 * p.soFar + 64]);
    if p.soFar + 1 == StripesPerBlock(secret) then Progress(k.scramble(a, secret[|secret| - 64..]), 0)
    else Progress(a, p.soFar + 1)
  }

  /** The state after the first `n` stripes of `input`. */
  function Feed(k: Kernel, secret: Secret, input: seq<u8>, n: nat): (p: Progress)
    requires 64 * n <= |input|
    ensures p.soFar < StripesPerBlock(secret)
  {
    if n == 0 then Progress(InitAcc(), 0)
    else FeedStripe(k, secret, Feed(k, secret, input, n - 1), input[64 * (n - 1)..64 * n])
  }

  function MergeAccs(acc: Acc, secret: Secret, start: u64, n: nat): u64
    requires n <= 4
  {
    if n == 0 then start
    else
      Add64(MergeAccs(acc, secret, start, n - 1),
            MulFold64(Xor64(acc[2 * n - 2], ReadLE64(secret, 11 + 16 * (n - 1))),
                      Xor64(acc[2 * n - 1], ReadLE64(secret, 11 + 16 * (n - 1) + 8))))
  }

  function FinishLong(acc: Acc, secret: Secret, len: nat): u64
  {
    Avalanche3(MergeAccs(acc, secret, Mul64(len, PRIME64_1), 4))
  }

  /** Every stripe but the last in order, then the last 64 bytes with their own secret window. */
  function LongAcc(k: Kernel, input: seq<u8>, secret: Secret): Acc
    requires |input| > 240
  {
    k.accumulate(Feed(k, secret, input, (|input| - 1) / 64).acc,
                 input[|input| - 64..],
                 secret[|secret| - 71..|secret| - 7])
  }

  function LongHash(k: Kernel, input: seq<u8>, secret: Secret): u64
    requires |input| > 240
  {
    FinishLong(LongAcc(k, input, secret), secret, |input|)
  }

  // ---------------------------------------------------------------- the four entry points

  /** Short inputs mix `secret` and `seed`; long inputs use `longSecret` alone. */
  function Hash(k: Kernel, input: seq<u8>, secret: Secret, seed: u64, longSecret: Secret): u64
  {
    if |input| <= 240 then ShortHash(input, secret, seed) else LongHash(k, input, longSecret)
  }

  function HashDefault(k: Kernel, builtin: Secret192, input: seq<u8>): u64
  {
    Hash(k, input, builtin, 0, builtin)
  }

  function HashWithSecret(k: Kernel, input: seq<u8>, secret: Secret): u64
  {
    Hash(k, input, secret, 0, secret)
  }

  function HashWithSeed(k: Kernel, builtin: Secret192, input: seq<u8>, seed: u64): u64
  {
    Hash(k, input, builtin, seed, if seed == 0 then builtin else DeriveSecret(builtin, seed))
  }

  function HashWithSecretAndSeed(k: Kernel, builtin: Secret192, input: seq<u8>, secret: Secret, seed: u64): u64
  {
    Hash(k, input, builtin, seed, secret)
  }

  // ---------------------------------------------------------------- seeded secrets

  function DeriveRound(builtin: Secret192, seed: u64, i: nat): (s: seq<u8>)
    requires i < 12
    ensures |s| == 16
  {
    WriteLE64(Add64(ReadLE64(builtin, 16 * i), seed)) + WriteLE64(Sub64(ReadLE64(builtin, 16 * i + 8), seed))
  }

  function DeriveRounds(builtin: Secret192, seed: u64, n: nat): (s: seq<u8>)
    requires n <= 12
    ensures |s| == 16 * n
  {
    if n == 0 then [] else
    DeriveRounds(builtin, seed, n - 1) + DeriveRound(builtin, seed, n - 1)
  }

  function DeriveSecret(builtin: Secret192, seed: u64): Secret192
  {
    DeriveRounds(builtin, seed, 12)
  }

  lemma DeriveRoundFromZero(builtin: Secret192, i: nat)
    requires i < 12
    ensures DeriveRound(builtin, 0, i) == builtin[16 * i..16 * i + 16]
  {
    hide ReadLE64, WriteLE64;
    WriteAfterRead(builtin, 16 * i);
    WriteAfterRead(builtin, 16 * i + 8);
    var lo, hi := ReadLE64(builtin, 16 * i), ReadLE64(builtin, 16 * i + 8);
    assert Add64(lo, 0) == lo && Sub64(hi, 0) == hi;
    assert builtin[16 * i..16 * i + 16] == builtin[16 * i..16 * i + 8] + builtin[16 * i + 8..16 * i + 8 + 8];
  }

  lemma {:induction false} DeriveRoundsFromZero(builtin: Secret192, n: nat)
    requires n <= 12
    ensures DeriveRounds(builtin, 0, n) == builtin[..16 * n]
  {
    hide DeriveRound;
    if n != 0 {
      DeriveRoundsFromZero(builtin, n - 1);
      DeriveRoundFromZero(builtin, n - 1);
    }
  }

  /** Seed 0 derives the built-in secret itself. */
  lemma DeriveFromZero(builtin: Secret192)
    ensures DeriveSecret(builtin, 0) == builtin
  {
    DeriveRoundsFromZero(builtin, 12);
  }

  /** A secret generated from a seed, given together with that seed, hashes like the seed alone,
      for every input and every seed, zero included. */
  lemma GeneratedSecretHashesLikeSeed(k: Kernel, builtin: Secret192, input: seq<u8>, seed: u64)
    ensures HashWithSecretAndSeed(k, builtin, input, DeriveSecret(builtin, seed), seed)
            == HashWithSeed(k, builtin, input, seed)
  {
    hide ShortHash, LongHash, DeriveSecret;
    DeriveFromZero(builtin);
  }
}
