/** Running XXH64 backwards, step by step. Changing one byte behind the last whole stripe, in
    particular one byte of an input shorter than a stripe, changes the hash. */
module Xxh64Inverse {
  import opened Arith
  import opened Words
  import opened Bits
  import opened Xxh64

  lemma UnAdd64(a: u64, b: u64)
    ensures Sub64(Add64(a, b), b) == a && Sub64(Add64(a, b), a) == b
  {
    var x: int, y: int := a, b;
    WrapSum64(x + y, -y);
    WrapSum64(x + y, -x);
    DivModUnique(x, TWO64, 0, x);
    DivModUnique(y, TWO64, 0, y);
  }

  lemma UnXor64(a: u64, b: u64)
    ensures Xor64(Xor64(a, b), b) == a && Xor64(Xor64(a, b), a) == b
  {
    hide Xor;
    XorCancel(a, b);
    XorComm(a, b);
    XorCancel(b, a);
  }

  // ---------------------------------------------------------------- stripes

  function UnRound(y: u64, input: u64): u64
  {
    Sub64(Rotl64(Mul64(y, 0x0887493432BADB37), 33), Mul64(input, 0xC2B2AE3D27D4EB4F))
  }

  function RoundInput(y: u64, acc: u64): u64
  {
    Mul64(Sub64(Rotl64(Mul64(y, 0x0887493432BADB37), 33), acc), 0x0BA79078168D4BAF)
  }

  lemma RoundUndone(acc: u64, input: u64)
    ensures UnRound(Round(acc, input), input) == acc && RoundInput(Round(acc, input), acc) == input
  {
    hide Mul64, Rotl64, Add64, Sub64;
    var word := Mul64(input, P2);
    var sum := Add64(acc, word);
    UnMul64(Rotl64(sum, 31), P1, 0x0887493432BADB37);
    RotateBack64(sum, 31);
    UnAdd64(acc, word);
    UnMul64(input, P2, 0x0BA79078168D4BAF);
  }

  /** The lanes the seed starts with, as sums of the first two primes. */
  lemma SeedLanes(seed: u64)
    ensures InitLanes(seed) == [(seed + 0x60EA27EEADC0B5D6) % TWO64, (seed + 0xC2B2AE3D27D4EB4F) % TWO64,
                                seed, (seed - 0x9E3779B185EBCA87) % TWO64]
  {
    var x: int := seed;
    WrapSum64(x + P1, P2);
    DivModUnique(TWO64 + x + 0x60EA27EEADC0B5D6, TWO64, 1 + (x + 0x60EA27EEADC0B5D6) / TWO64,
                 (x + 0x60EA27EEADC0B5D6) % TWO64);
  }

  function UnMergeRound(y: u64, val: u64): u64
  {
    Xor64(Mul64(Sub64(y, 0x85EBCA77C2B2AE63), 0x0887493432BADB37), Round(0, val))
  }

  lemma MergeRoundUndone(acc: u64, val: u64)
    ensures UnMergeRound(MergeRound(acc, val), val) == acc
  {
    hide Mul64, Add64, Sub64, Xor64, Round;
    var x := Xor64(acc, Round(0, val));
    UnAdd64(Mul64(x, P1), P4);
    UnMul64(x, P1, 0x0887493432BADB37);
    UnXor64(acc, Round(0, val));
  }

  /** Undoing the four merge rounds leaves the sum of the lanes rotated by 1, 7, 12 and 18. */
  lemma MergeUndone(v: Lanes)
    ensures
      var sum := UnMergeRound(UnMergeRound(UnMergeRound(UnMergeRound(Merge(v), v[3]), v[2]), v[1]), v[0]);
      sum == Add64(Add64(Add64(Rotl64(v[0], 1), Rotl64(v[1], 7)), Rotl64(v[2], 12)), Rotl64(v[3], 18))
  {
    hide MergeRound, UnMergeRound, Rotl64, Add64;
    var h := Add64(Add64(Add64(Rotl64(v[0], 1), Rotl64(v[1], 7)), Rotl64(v[2], 12)), Rotl64(v[3], 18));
    MergeRoundUndone(h, v[0]);
    MergeRoundUndone(MergeRound(h, v[0]), v[1]);
    MergeRoundUndone(MergeRound(MergeRound(h, v[0]), v[1]), v[2]);
    MergeRoundUndone(MergeRound(MergeRound(MergeRound(h, v[0]), v[1]), v[2]), v[3]);
  }

  // ---------------------------------------------------------------- tail

  /** The state and the mixed word behind an eight-byte step. */
  function Mixed8(y: u64): u64
  {
    Rotl64(Mul64(Sub64(y, 0x85EBCA77C2B2AE63), 0x0887493432BADB37), 37)
  }

  lemma Process8Undone(h: u64, word: u64)
    ensures Xor64(Mixed8(Process8(h, word)), Round(0, word)) == h
    ensures RoundInput(Xor64(Mixed8(Process8(h, word)), h), 0) == word
  {
    hide Mul64, Rotl64, Add64, Sub64, Xor64, Round, RoundInput;
    var w := Round(0, word);
    var x := Xor64(h, w);
    UnAdd64(Mul64(Rotl64(x, 27), P1), P4);
    UnMul64(Rotl64(x, 27), P1, 0x0887493432BADB37);
    RotateBack64(x, 27);
    UnXor64(h, w);
    RoundUndone(0, word);
  }

  function Mixed4(y: u64): u64
  {
    Rotl64(Mul64(Sub64(y, 0x165667B19E3779F9), 0x0BA79078168D4BAF), 41)
  }

  lemma Process4Undone(h: u64, word: u32)
    ensures Xor64(Mixed4(Process4(h, word)), Mul64(word, 0x9E3779B185EBCA87)) == h
    ensures Mul64(Xor64(Mixed4(Process4(h, word)), h), 0x0887493432BADB37) == word
  {
    hide Mul64, Rotl64, Add64, Sub64, Xor64;
    var w := Mul64(word, P1);
    var x := Xor64(h, w);
    UnAdd64(Mul64(Rotl64(x, 23), P2), P3);
    UnMul64(Rotl64(x, 23), P2, 0x0BA79078168D4BAF);
    RotateBack64(x, 23);
    UnXor64(h, w);
    UnMul64(word, P1, 0x0887493432BADB37);
  }

  function Mixed1(y: u64): u64 { Rotl64(Mul64(y, 0x0887493432BADB37), 53) }

  lemma Process1Undone(h: u64, byte: u8)
    ensures Xor64(Mixed1(Process1(h, byte)), Mul64(byte, 0x27D4EB2F165667C5)) == h
    ensures Mul64(Xor64(Mixed1(Process1(h, byte)), h), 0xC592C09FDFBA7F0D) == byte
  {
    hide Mul64, Rotl64, Xor64;
    var w := Mul64(byte, P5);
    var x := Xor64(h, w);
    UnMul64(Rotl64(x, 11), P1, 0x0887493432BADB37);
    RotateBack64(x, 11);
    UnXor64(h, w);
    UnMul64(byte, P5, 0xC592C09FDFBA7F0D);
  }

  function UnAvalanche(y: u64): u64
  {
    var m2 := Mul64(Xor64(y, Shr64(y, 32)), 0xE9E9F4C41D6DF849);
    var m1 := Mul64(Xor64(Xor64(m2, Shr64(m2, 29)), Shr64(m2, 58)), 0x0BA79078168D4BAF);
    Xor64(m1, Shr64(m1, 33))
  }

  lemma AvalancheUndone(h: u64)
    ensures UnAvalanche(Avalanche(h)) == h
  {
    hide Xor64, Shr64, Mul64;
    var x1 := Xor64(h, Shr64(h, 33));
    var h1 := Mul64(x1, P2);
    var x2 := Xor64(h1, Shr64(h1, 29));
    var h2 := Mul64(x2, P3);
    UnXorShift64(h2, 32);
    UnMul64(x2, P3, 0xE9E9F4C41D6DF849);
    UnXorShift64Twice(h1, 29);
    UnMul64(x1, P2, 0x0BA79078168D4BAF);
    UnXorShift64(h, 33);
  }

  /** The hash of nothing gives the seed back. */
  lemma EmptyHash(seed: u64)
    ensures UnAvalanche(Hash([], seed)) == (seed + 0x27D4EB2F165667C5) % TWO64
  {
    hide Avalanche, UnAvalanche;
    var h := Add64(Add64(seed, P5), 0);
    AvalancheUndone(h);
    DivModUnique(Add64(seed, P5), TWO64, 0, Add64(seed, P5));
  }

  // ---------------------------------------------------------------- one changed byte

  lemma ReadOneByte(a: seq<u8>, b: seq<u8>, j: nat)
    requires OneByte(a, b, j)
    ensures |a| >= 4 ==> (ReadLE32(a, 0) == ReadLE32(b, 0) <==> j >= 4)
    ensures |a| >= 8 ==> (ReadLE64(a, 0) == ReadLE64(b, 0) <==> j >= 8)
  {
    hide LittleEndian, ToBytes;
    if |a| >= 4 { PrefixValue(a, b, j, 4); }
    if |a| >= 8 { PrefixValue(a, b, j, 8); }
  }

  lemma PrefixValue(a: seq<u8>, b: seq<u8>, j: nat, n: nat)
    requires OneByte(a, b, j) && n <= |a|
    ensures LittleEndian(a[0..n]) == LittleEndian(b[0..n]) <==> j >= n
  {
    hide LittleEndian, ToBytes;
    BytesOfLittleEndian(a[0..n]);
    BytesOfLittleEndian(b[0..n]);
    if j < n {
      assert a[0..n][j] != b[0..n][j];
    } else {
      assert a[0..n] == b[0..n];
    }
  }

  lemma {:induction false} FinishInjective(g: u64, h: u64, tail: seq<u8>)
    requires g != h
    ensures Finish(g, tail) != Finish(h, tail)
    decreases |tail|
  {
    hide Process8, Process4, Process1, Avalanche, Mixed8, Mixed4, Mixed1, UnAvalanche, ReadLE64, ReadLE32;
    hide Finish, Xor64, Mul64, Round, RoundInput;
    FinishStep(g, tail);
    FinishStep(h, tail);
    if |tail| >= 8 {
      Process8Undone(g, ReadLE64(tail, 0));
      Process8Undone(h, ReadLE64(tail, 0));
      FinishInjective(Process8(g, ReadLE64(tail, 0)), Process8(h, ReadLE64(tail, 0)), tail[8..]);
    } else if |tail| >= 4 {
      Process4Undone(g, ReadLE32(tail, 0));
      Process4Undone(h, ReadLE32(tail, 0));
      FinishInjective(Process4(g, ReadLE32(tail, 0)), Process4(h, ReadLE32(tail, 0)), tail[4..]);
    } else if |tail| > 0 {
      Process1Undone(g, tail[0]);
      Process1Undone(h, tail[0]);
      FinishInjective(Process1(g, tail[0]), Process1(h, tail[0]), tail[1..]);
    } else {
      AvalancheUndone(g);
      AvalancheUndone(h);
    }
  }

  lemma {:induction false} FinishOneByte(h: u64, a: seq<u8>, b: seq<u8>, j: nat)
    requires OneByte(a, b, j)
    ensures Finish(h, a) != Finish(h, b)
    decreases |a|
  {
    hide Process8, Process4, Process1, Avalanche, Mixed8, Mixed4, Mixed1, ReadLE64, ReadLE32;
    hide Finish, Xor64, Mul64, Round, RoundInput;
    FinishStep(h, a);
    FinishStep(h, b);
    ReadOneByte(a, b, j);
    if |a| >= 8 {
      var x, y := ReadLE64(a, 0), ReadLE64(b, 0);
      if j < 8 {
        Process8Undone(h, x);
        Process8Undone(h, y);
        assert a[8..] == b[8..];
        FinishInjective(Process8(h, x), Process8(h, y), a[8..]);
      } else {
        FinishOneByte(Process8(h, x), a[8..], b[8..], j - 8);
      }
    } else if |a| >= 4 {
      var x, y := ReadLE32(a, 0), ReadLE32(b, 0);
      if j < 4 {
        Process4Undone(h, x);
        Process4Undone(h, y);
        assert a[4..] == b[4..];
        FinishInjective(Process4(h, x), Process4(h, y), a[4..]);
      } else {
        FinishOneByte(Process4(h, x), a[4..], b[4..], j - 4);
      }
    } else if j == 0 {
      Process1Undone(h, a[0]);
      Process1Undone(h, b[0]);
      assert a[1..] == b[1..];
      FinishInjective(Process1(h, a[0]), Process1(h, b[0]), a[1..]);
    } else {
      FinishOneByte(Process1(h, a[0]), a[1..], b[1..], j - 1);
    }
  }

  lemma FoldOfEqual(seed: u64, a: seq<u8>, b: seq<u8>, n: nat)
    requires 32 * n <= |a| && 32 * n <= |b| && a[..32 * n] == b[..32 * n]
    ensures Fold(seed, a, n) == Fold(seed, b, n)
  {
    FoldOfPrefix(seed, a[..32 * n], a[32 * n..], n);
    FoldOfPrefix(seed, b[..32 * n], b[32 * n..], n);
    assert a[..32 * n] + a[32 * n..] == a && b[..32 * n] + b[32 * n..] == b;
  }

  /** Changing one byte behind the last whole stripe changes the hash. */
  lemma OneTailByteChangesHash(a: seq<u8>, b: seq<u8>, seed: u64, j: nat)
    requires OneByte(a, b, j) && j >= |a| / 32 * 32
    ensures Hash(a, seed) != Hash(b, seed)
  {
    hide Hash, Fold, Merge, Finish, Add64;
    HashParts(a, seed);
    HashParts(b, seed);
    var n := |a| / 32;
    assert a[..32 * n] == b[..32 * n];
    FoldOfEqual(seed, a, b, n);
    var h := Add64(if |a| >= 32 then Merge(Fold(seed, a, n)) else Add64(seed, P5), |a|);
    FinishOneByte(h, a[32 * n..], b[32 * n..], j - 32 * n);
  }
}
