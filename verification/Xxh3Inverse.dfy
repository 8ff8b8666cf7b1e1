/** Running the XXH3 mixing steps backwards. The inverses have their own shifts and multipliers; with
    them short inputs can be recovered from their hash, so no two of them collide. */
module Xxh3Inverse {
  import opened Arith
  import opened Words
  import opened Bits
  import opened Multiply
  import opened ConstexprWords
  import opened Xxh3Kernel
  import opened Xxh3Hash

  // ---------------------------------------------------------------- mixing steps

  function UnAvalanche64(y: u64): u64
  {
    var h2 := Xor64(y, Shr64(y, 32));
    var m2 := Mul64(h2, 0xE9E9F4C41D6DF849);
    var h1 := Xor64(Xor64(m2, Shr64(m2, 29)), Shr64(m2, 58));
    var m1 := Mul64(h1, 0x0BA79078168D4BAF);
    Xor64(m1, Shr64(m1, 33))
  }

  lemma AvalancheUndone(h: u64)
    ensures UnAvalanche64(Avalanche64(h)) == h
  {
    hide Xor64, Shr64, Mul64;
    var x1 := XorShift64(h, 33);
    var h1 := Mul64(x1, PRIME64_2);
    var x2 := XorShift64(h1, 29);
    var h2 := Mul64(x2, PRIME64_3);
    UnXorShift64(h2, 32);
    UnMul64(x2, PRIME64_3, 0xE9E9F4C41D6DF849);
    UnXorShift64Twice(h1, 29);
    UnMul64(x1, PRIME64_2, 0x0BA79078168D4BAF);
    UnXorShift64(h, 33);
  }

  function UnAvalanche3(y: u64): u64
  {
    var m := Mul64(Xor64(y, Shr64(y, 32)), 0x08DA8EE41D6DF849);
    Xor64(m, Shr64(m, 37))
  }

  lemma Avalanche3Undone(h: u64)
    ensures UnAvalanche3(Avalanche3(h)) == h
  {
    hide Xor64, Shr64, Mul64;
    var x := XorShift64(h, 37);
    var m := Mul64(x, 0x165667919E3779F9);
    UnXorShift64(m, 32);
    UnMul64(x, 0x165667919E3779F9, 0x08DA8EE41D6DF849);
    UnXorShift64(h, 37);
  }

  /** The sum of rotations by 49 and 24 is undone by six more sums of rotations. */
  function Unspread(y: u64): u64
  {
    Spread(Spread(Spread(Spread(Spread(Spread(y, 49, 24), 34, 48), 4, 32), 8, 0), 16, 0), 32, 0)
  }

  lemma SpreadUndone(h: u64)
    ensures Unspread(Spread(h, 49, 24)) == h
  {
    hide Spread;
    SpreadTwice(h, 49, 24, 34, 48);
    SpreadTwice(h, 34, 48, 4, 32);
    SpreadTwice(h, 4, 32, 8, 0);
    SpreadTwice(h, 8, 0, 16, 0);
    SpreadTwice(h, 16, 0, 32, 0);
    SpreadTwice(h, 32, 0, 0, 0);
    SpreadZero(h);
  }

  function UnRrmxmx(y: u64, len: nat): u64
  {
    var m3 := Xor64(Xor64(y, Shr64(y, 28)), Shr64(y, 56));
    var h3 := Mul64(m3, 0x02AB9C720D1024AD);
    var h2 := Xor64(h3, Add64(Shr64(h3, 35), len));
    Unspread(Mul64(h2, 0x02AB9C720D1024AD))
  }

  /** Adding a length to the top bits does not reach the bits above 35. */
  lemma TopKept(h: u64, len: nat)
    requires len < TWO32
    ensures
      var x := Xor64(h, Add64(Shr64(h, 35), len));
      Shr64(x, 35) == Shr64(h, 35)
  {
    hide Bit, Xor64, Shr64, Add64, Pow2;
    var k := Add64(Shr64(h, 35), len);
    var x := Xor64(h, k);
    SmallSum(h, len);
    forall i | 0 <= i < 64 ensures Bit(Shr64(x, 35), i) == Bit(Shr64(h, 35), i) {
      TopBit(h, k, i);
    }
    Same64(Shr64(x, 35), Shr64(h, 35));
  }

  lemma TopBit(h: u64, k: u64, i: nat)
    requires k < Pow2(35)
    ensures Bit(Shr64(Xor64(h, k), 35), i) == Bit(Shr64(h, 35), i)
  {
    hide Bit, Xor64, Shr64, Pow2;
    BitShr64(Xor64(h, k), 35, i);
    BitShr64(h, 35, i);
    BitXor64(h, k, i + 35);
    BitHigh(k, 35, i + 35);
  }

  lemma SmallSum(h: u64, len: nat)
    requires len < TWO32
    ensures Add64(Shr64(h, 35), len) < Pow2(35)
  {
    hide Pow2;
    PowersUsed();
    Pow2Add(32, 3);
    Pow2Three();
  }

  lemma Pow2Three()
    ensures Pow2(3) == 8
  {
  }

  lemma RrmxmxUndone(h: u64, len: nat)
    requires len < TWO32
    ensures UnRrmxmx(Rrmxmx(h, len), len) == h
  {
    hide Xor64, Shr64, Mul64, Rotl64, Add64, Unspread;
    var h1 := Spread(h, 49, 24);
    var h2 := Mul64(h1, 0x9FB21C651E98DF25);
    var k := Add64(Shr64(h2, 35), len);
    var h3 := Xor64(h2, k);
    var m3 := Mul64(h3, 0x9FB21C651E98DF25);
    UnXorShift64Twice(m3, 28);
    UnMul64(h3, 0x9FB21C651E98DF25, 0x02AB9C720D1024AD);
    TopKept(h2, len);
    UnXor64(h2, k);
    UnMul64(h1, 0x9FB21C651E98DF25, 0x02AB9C720D1024AD);
    SpreadUndone(h);
  }

  lemma UnXor64(a: u64, b: u64)
    ensures Xor64(Xor64(a, b), b) == a
  {
    hide Xor;
    XorCancel(a, b);
  }

  /** A scrambled lane gives the lane back. */
  function UnScrambleLane(y: u64, key: u64): u64
  {
    var m := Xor64(Mul64(y, 0xCFA4A56B0E8B2F51), key);
    Xor64(m, Shr64(m, 47))
  }

  lemma ScrambleUndone(a: u64, key: u64)
    ensures UnScrambleLane(ScrambleLane(a, key), key) == a
  {
    hide Xor64, Shr64, Mul64;
    var x := Xor64(a, Shr64(a, 47));
    UnMul64(Xor64(x, key), PRIME32_1, 0xCFA4A56B0E8B2F51);
    UnXor64(x, key);
    UnXorShift64(a, 47);
  }

  // ---------------------------------------------------------------- the empty input

  /** The hash of nothing is the avalanche of two secret words and the seed. */
  lemma EmptyHash(secret: Secret, seed: u64)
    ensures UnAvalanche64(ShortHash([], secret, seed))
            == Xor64(seed, Xor64(ReadLE64(secret, 56), ReadLE64(secret, 64)))
  {
    hide Xor64, Avalanche64, UnAvalanche64, ReadLE64;
    AvalancheUndone(Xor64(seed, Xor64(ReadLE64(secret, 56), ReadLE64(secret, 64))));
  }

  // ---------------------------------------------------------------- one to three bytes

  /** The word made of the bytes and the length. */
  lemma CombinedIs(c1: u8, c2: u8, c3: u8, len: nat)
    requires len < 0x100
    ensures Or32(Or32(Or32(Shl32(c1, 16), Shl32(c2, 24)), c3), Shl32(len, 8))
            == (c1 as int) * 0x1_0000 + (c2 as int) * 0x100_0000 + (c3 as int) + len * 0x100
  {
    hide Or, Pow2;
    PowersUsed();
    var b1: int, b2: int, b3: int := c1, c2, c3;
    var high := b1 * 0x1_0000 + b2 * 0x100_0000;
    OrByteAbove(b1 * 0x1_0000, b2, 24, b2 * 0x100_0000);
    OrAssoc(high, b3, len * 0x100);
    OrByteAbove(b3, len, 8, len * 0x100);
    OrDisjoint(b1 + b2 * 0x100, b3 + len * 0x100, 16);
  }

  /** The combined word tells the bytes and the length. */
  lemma CombinedDigits(c1: int, c2: int, c3: int, len: int)
    requires 0 <= c1 < 0x100 && 0 <= c2 < 0x100 && 0 <= c3 < 0x100 && 0 <= len < 0x100
    ensures
      var x := c1 * 0x1_0000 + c2 * 0x100_0000 + c3 + len * 0x100;
      && x / 0x100_0000 == c2 && x % 0x100_0000 / 0x1_0000 == c1
      && x % 0x1_0000 / 0x100 == len && x % 0x100 == c3
  {
    var x := c1 * 0x1_0000 + c2 * 0x100_0000 + c3 + len * 0x100;
    DivModUnique(x, 0x100_0000, c2, c1 * 0x1_0000 + len * 0x100 + c3);
    DivModUnique(x % 0x100_0000, 0x1_0000, c1, len * 0x100 + c3);
    DivModUnique(x, 0x1_0000, c2 * 0x100 + c1, len * 0x100 + c3);
    DivModUnique(x % 0x1_0000, 0x100, len, c3);
    DivModUnique(x, 0x100, (c2 * 0x100 + c1) * 0x100 + len, c3);
  }

  function Combined(input: seq<u8>): u32
    requires 1 <= |input| <= 3
  {
    Or32(Or32(Or32(Shl32(input[0], 16), Shl32(input[|input| / 2], 24)), input[|input| - 1]), Shl32(|input|, 8))
  }

  /** The string of one to three bytes that has this hash. */
  function RecoverOneToThree(h: u64, secret: Secret, seed: u64): seq<u8>
  {
    var x := Xor64(UnAvalanche64(h), Add64(Xor32(ReadLE32(secret, 0), ReadLE32(secret, 4)), seed));
    var c2, c1, len, c3 := x / 0x100_0000 % 0x100, x % 0x100_0000 / 0x1_0000, x % 0x1_0000 / 0x100, x % 0x100;
    if len == 1 then [c3] else if len == 2 then [c1, c3] else [c1, c2, c3]
  }

  /** Every string of one to three bytes can be recovered from its hash, its length included. */
  lemma OneToThreeRecovered(s: seq<u8>, secret: Secret, seed: u64)
    requires 1 <= |s| <= 3
    ensures RecoverOneToThree(ShortHash(s, secret, seed), secret, seed) == s
  {
    hide Xor64, Xor32, Or32, Shl32, Avalanche64, UnAvalanche64, ReadLE32, Add64;
    var bitflip := Add64(Xor32(ReadLE32(secret, 0), ReadLE32(secret, 4)), seed);
    AvalancheUndone(Xor64(Combined(s), bitflip));
    UnXor64(Combined(s), bitflip);
    CombinedIs(s[0], s[|s| / 2], s[|s| - 1], |s|);
    CombinedDigits(s[0], s[|s| / 2], s[|s| - 1], |s|);
  }

  /** No two strings of one to three bytes, of whatever lengths, have the same hash. */
  lemma OneToThreeDiffer(a: seq<u8>, b: seq<u8>, secret: Secret, seed: u64)
    requires 1 <= |a| <= 3 && 1 <= |b| <= 3 && a != b
    ensures ShortHash(a, secret, seed) != ShortHash(b, secret, seed)
  {
    hide ShortHash, RecoverOneToThree;
    OneToThreeRecovered(a, secret, seed);
    OneToThreeRecovered(b, secret, seed);
  }

  // ---------------------------------------------------------------- four to eight bytes

  /** The first four bytes above the last four. */
  function Ends(input: seq<u8>): u64
    requires 4 <= |input| <= 8
  {
    Add64(ReadLE32(input, |input| - 4), Shl64(ReadLE32(input, 0), 32))
  }

  lemma EndsIs(input: seq<u8>)
    requires 4 <= |input| <= 8
    ensures
      var first, last := ReadLE32(input, 0), ReadLE32(input, |input| - 4);
      Ends(input) / TWO32 == first && Ends(input) % TWO32 == last
  {
    hide ReadLE32, Pow2;
    PowersUsed();
    var first: int, last: int := ReadLE32(input, 0), ReadLE32(input, |input| - 4);
    assert Shl64(first, 32) == first * TWO32;
    assert Ends(input) == first * TWO32 + last;
    DivModUnique(Ends(input), TWO32, first, last);
  }

  /** The string of `len` bytes, four to eight, that has this hash. */
  function RecoverFourToEight(h: u64, len: nat, secret: Secret, seed: u64): seq<u8>
    requires 4 <= len <= 8
  {
    var seed' := Xor64(seed, Shl64(ByteSwap32(seed % TWO32), 32));
    var x := Xor64(UnRrmxmx(h, len), Sub64(Xor64(ReadLE64(secret, 8), ReadLE64(secret, 16)), seed'));
    ToBytes(x / TWO32, 4) + ToBytes(x % TWO32, 4)[8 - len..]
  }

  /** Every string of four to eight bytes can be recovered from its hash and its length. */
  lemma FourToEightRecovered(s: seq<u8>, secret: Secret, seed: u64)
    requires 4 <= |s| <= 8
    ensures RecoverFourToEight(ShortHash(s, secret, seed), |s|, secret, seed) == s
  {
    hide Xor64, Shl64, Rrmxmx, UnRrmxmx, ReadLE64, Add64, Sub64, ByteSwap32, LittleEndian, ToBytes;
    var seed' := Xor64(seed, Shl64(ByteSwap32(seed % TWO32), 32));
    var bitflip := Sub64(Xor64(ReadLE64(secret, 8), ReadLE64(secret, 16)), seed');
    RrmxmxUndone(Xor64(Ends(s), bitflip), |s|);
    UnXor64(Ends(s), bitflip);
    EndsIs(s);
    BytesOfLittleEndian(s[0..4]);
    BytesOfLittleEndian(s[|s| - 4..|s|]);
    assert s[|s| - 4..|s|][8 - |s|..] == s[4..] && s[0..4] + s[4..] == s;
  }

  lemma FourToEightDiffer(a: seq<u8>, b: seq<u8>, secret: Secret, seed: u64)
    requires 4 <= |a| == |b| <= 8 && a != b
    ensures ShortHash(a, secret, seed) != ShortHash(b, secret, seed)
  {
    hide ShortHash, RecoverFourToEight;
    FourToEightRecovered(a, secret, seed);
    FourToEightRecovered(b, secret, seed);
  }

  // ---------------------------------------------------------------- nine to sixteen bytes

  /** The fold of a product is its two words added without carries. */
  lemma FoldSum(lhs: u64, rhs: u64)
    ensures
      var low, high := lhs * rhs % TWO64, lhs * rhs / TWO64;
      high >= 0 && MulFold64(lhs, rhs) + 2 * And(low, high) == low + high
  {
    hide Xor, And;
    HalvesInRange(lhs, rhs);
    XorAndSum(lhs * rhs % TWO64, lhs * rhs / TWO64);
  }

  /** What enters the last avalanche: length, swapped first word, last word and their folded product,
      each word under its own two secret words and the seed. */
  lemma NineToSixteen(s: seq<u8>, secret: Secret, seed: u64)
    requires 9 <= |s| <= 16
    ensures
      var lo := Xor64(ReadLE64(s, 0), (Xor64(ReadLE64(secret, 24), ReadLE64(secret, 32)) + seed) % TWO64);
      var hi := Xor64(ReadLE64(s, |s| - 8), (Xor64(ReadLE64(secret, 40), ReadLE64(secret, 48)) - seed) % TWO64);
      UnAvalanche3(ShortHash(s, secret, seed)) == (|s| + ByteSwap64(lo) + hi + MulFold64(lo, hi)) % TWO64
  {
    hide Xor64, ReadLE64, ByteSwap64, MulFold64, Avalanche3, UnAvalanche3;
    var lo := Xor64(ReadLE64(s, 0), Add64(Xor64(ReadLE64(secret, 24), ReadLE64(secret, 32)), seed));
    var hi := Xor64(ReadLE64(s, |s| - 8), Sub64(Xor64(ReadLE64(secret, 40), ReadLE64(secret, 48)), seed));
    var a: int, b: int, c: int := ByteSwap64(lo), hi, MulFold64(lo, hi);
    Avalanche3Undone(Add64(Add64(Add64(|s|, a), b), c));
    WrapSum64(|s| + a, b);
    WrapSum64(|s| + a + b, c);
  }

  // ---------------------------------------------------------------- seventeen to 128 bytes

  lemma DerivedRound(builtin: Secret192, seed: u64, i: nat, n: nat)
    requires i < n <= 12
    ensures DeriveRounds(builtin, seed, n)[16 * i..16 * i + 16] == DeriveRound(builtin, seed, i)
  {
    hide DeriveRound;
    if i < n - 1 {
      DerivedRound(builtin, seed, i, n - 1);
      var shorter := DeriveRounds(builtin, seed, n - 1);
      assert DeriveRounds(builtin, seed, n)[16 * i..16 * i + 16] == shorter[16 * i..16 * i + 16];
    }
  }

  /** The words of the derived secret: the seed is added to the first of each pair and subtracted from
      the second. */
  lemma DerivedWords(builtin: Secret192, seed: u64, i: nat)
    requires i < 12
    ensures ReadLE64(DeriveSecret(builtin, seed), 16 * i) == Add64(ReadLE64(builtin, 16 * i), seed)
    ensures ReadLE64(DeriveSecret(builtin, seed), 16 * i + 8) == Sub64(ReadLE64(builtin, 16 * i + 8), seed)
  {
    hide ToBytes, LittleEndian, DeriveRounds;
    DerivedRound(builtin, seed, i, 12);
    var lo, hi := Add64(ReadLE64(builtin, 16 * i), seed), Sub64(ReadLE64(builtin, 16 * i + 8), seed);
    var derived := DeriveSecret(builtin, seed);
    var round := derived[16 * i..16 * i + 16];
    assert derived[16 * i..16 * i + 8] == round[..8] == WriteLE64(lo);
    assert derived[16 * i + 8..16 * i + 8 + 8] == round[8..] == WriteLE64(hi);
    ReadBack(lo);
    ReadBack(hi);
  }

  lemma ReadBack(v: u64)
    ensures LittleEndian(WriteLE64(v)) == v
  {
    hide Pow2;
    Pow2Values();
    LittleEndianOfBytes(v, 8);
  }

  lemma MixDerived(input: seq<u8>, p: nat, builtin: Secret192, seed: u64, i: nat)
    requires p + 16 <= |input| && i < 12
    ensures Mix16B(input, p, builtin, 16 * i, seed) == Mix16B(input, p, DeriveSecret(builtin, seed), 16 * i, 0)
  {
    hide ReadLE64, MulFold64, Xor64, DeriveSecret;
    DerivedWords(builtin, seed, i);
    var d := DeriveSecret(builtin, seed);
    DivModUnique(ReadLE64(d, 16 * i), TWO64, 0, ReadLE64(d, 16 * i));
    DivModUnique(ReadLE64(d, 16 * i + 8), TWO64, 0, ReadLE64(d, 16 * i + 8));
  }

  lemma {:induction false} PairSumDerived(input: seq<u8>, builtin: Secret192, seed: u64, n: nat)
    requires 16 < |input| <= 128 && 32 * n < |input| + 32
    ensures PairSum(input, builtin, seed, n) == PairSum(input, DeriveSecret(builtin, seed), 0, n)
  {
    hide Mix16B, Add64, Mul64, DeriveSecret;
    if n != 0 {
      PairSumDerived(input, builtin, seed, n - 1);
      MixDerived(input, 16 * (n - 1), builtin, seed, 2 * (n - 1));
      MixDerived(input, |input| - 16 * n, builtin, seed, 2 * (n - 1) + 1);
      assert 16 * (2 * (n - 1)) == 32 * (n - 1) && 16 * (2 * (n - 1) + 1) == 32 * (n - 1) + 16;
    }
  }

  /** For inputs of 17 to 128 bytes a seed does what the secret derived from it would do. */
  lemma SeedIsDerivedSecret(input: seq<u8>, builtin: Secret192, seed: u64)
    requires 16 < |input| <= 128
    ensures ShortHash(input, builtin, seed) == ShortHash(input, DeriveSecret(builtin, seed), 0)
  {
    hide Avalanche3, PairSum, DeriveSecret;
    PairSumDerived(input, builtin, seed, PairCount(|input|));
  }

  // ---------------------------------------------------------------- the operation

  /** For every secret and seed: two different strings of one to three bytes, or of equal length up
      to eight, have different hashes, in every mode. */
  lemma ShortStringsDiffer(k: Kernel, a: seq<u8>, b: seq<u8>, secret: Secret, seed: u64, longSecret: Secret)
    requires a != b && |a| <= 8 && |b| <= 8
    requires |a| == |b| || (1 <= |a| <= 3 && 1 <= |b| <= 3)
    ensures Hash(k, a, secret, seed, longSecret) != Hash(k, b, secret, seed, longSecret)
  {
    hide ShortHash;
    if |a| <= 3 {
      OneToThreeDiffer(a, b, secret, seed);
    } else {
      FourToEightDiffer(a, b, secret, seed);
    }
  }
}
