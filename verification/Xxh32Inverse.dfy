/** Running XXH32 backwards: every step can be undone for a known input word, and gives the input
    word for known lanes. Hence changing one byte of an input of any length changes its hash. */
module Xxh32Inverse {
  import opened Arith
  import opened Words
  import opened Bits
  import opened Xxh32

  lemma UnAdd32(a: u32, b: u32)
    ensures Sub32(Add32(a, b), b) == a && Sub32(Add32(a, b), a) == b
  {
    var x: int, y: int := a, b;
    WrapSum32(x + y, -y);
    WrapSum32(x + y, -x);
    DivModUnique(x, TWO32, 0, x);
    DivModUnique(y, TWO32, 0, y);
  }

  // ---------------------------------------------------------------- stripes

  function UnRound(y: u32, input: u32): u32
  {
    Sub32(Rotl32(Mul32(y, 0x0E8B2F51), 19), Mul32(input, 0x85EBCA77))
  }

  function RoundInput(y: u32, acc: u32): u32
  {
    Mul32(Sub32(Rotl32(Mul32(y, 0x0E8B2F51), 19), acc), 0xB6C92F47)
  }

  lemma RoundUndone(acc: u32, input: u32)
    ensures UnRound(Round(acc, input), input) == acc && RoundInput(Round(acc, input), acc) == input
  {
    hide Mul32, Rotl32, Add32, Sub32;
    var word := Mul32(input, P2);
    var sum := Add32(acc, word);
    UnMul32(Rotl32(sum, 13), P1, 0x0E8B2F51);
    RotateBack32(sum, 13);
    UnAdd32(acc, word);
    UnMul32(input, P2, 0xB6C92F47);
  }

  /** The lanes the seed starts with, as sums of the first two primes. */
  lemma SeedLanes(seed: u32)
    ensures InitLanes(seed) == [(seed + 0x24234428) % TWO32, (seed + 0x85EBCA77) % TWO32,
                                seed, (seed - 0x9E3779B1) % TWO32]
  {
    var x: int := seed;
    WrapSum32(x + P1, P2);
    WrapSum32(x + 0x24234428, TWO32);
    DivModUnique(TWO32 + x + 0x24234428, TWO32, 1 + (x + 0x24234428) / TWO32, (x + 0x24234428) % TWO32);
  }

  /** Any one lane follows from the merged word and the other lanes. */
  lemma MergeUndone(v: Lanes)
    ensures
      var (a, b, c, d) := (Rotl32(v[0], 1), Rotl32(v[1], 7), Rotl32(v[2], 12), Rotl32(v[3], 18));
      && Rotl32(Sub32(Sub32(Sub32(Merge(v), d), c), b), 31) == v[0]
      && Rotl32(Sub32(Sub32(Sub32(Merge(v), d), c), a), 25) == v[1]
      && Rotl32(Sub32(Sub32(Merge(v), d), Add32(a, b)), 20) == v[2]
      && Rotl32(Sub32(Merge(v), Add32(Add32(a, b), c)), 14) == v[3]
  {
    hide Rotl32, Add32, Sub32;
    var a, b, c, d := Rotl32(v[0], 1), Rotl32(v[1], 7), Rotl32(v[2], 12), Rotl32(v[3], 18);
    UnAdd32(Add32(Add32(a, b), c), d);
    UnAdd32(Add32(a, b), c);
    UnAdd32(a, b);
    RotateBack32(v[0], 1);
    RotateBack32(v[1], 7);
    RotateBack32(v[2], 12);
    RotateBack32(v[3], 18);
  }

  // ---------------------------------------------------------------- tail

  function UnProcess4(y: u32, word: u32): u32
  {
    Sub32(Rotl32(Mul32(y, 0xA0FE3BCF), 15), Mul32(word, 0xC2B2AE3D))
  }

  function Process4Word(y: u32, h: u32): u32
  {
    Mul32(Sub32(Rotl32(Mul32(y, 0xA0FE3BCF), 15), h), 0xA89ED915)
  }

  lemma Process4Undone(h: u32, word: u32)
    ensures UnProcess4(Process4(h, word), word) == h && Process4Word(Process4(h, word), h) == word
  {
    hide Mul32, Rotl32, Add32, Sub32;
    var w := Mul32(word, P3);
    UnMul32(Rotl32(Add32(h, w), 17), P4, 0xA0FE3BCF);
    RotateBack32(Add32(h, w), 17);
    UnAdd32(h, w);
    UnMul32(word, P3, 0xA89ED915);
  }

  function UnProcess1(y: u32, byte: u8): u32
  {
    Sub32(Rotl32(Mul32(y, 0x0E8B2F51), 21), Mul32(byte, 0x165667B1))
  }

  function Process1Byte(y: u32, h: u32): u32
  {
    Mul32(Sub32(Rotl32(Mul32(y, 0x0E8B2F51), 21), h), 0xAE398151)
  }

  lemma Process1Undone(h: u32, byte: u8)
    ensures UnProcess1(Process1(h, byte), byte) == h && Process1Byte(Process1(h, byte), h) == byte
  {
    hide Mul32, Rotl32, Add32, Sub32;
    var w := Mul32(byte, P5);
    UnMul32(Rotl32(Add32(h, w), 11), P1, 0x0E8B2F51);
    RotateBack32(Add32(h, w), 11);
    UnAdd32(h, w);
    UnMul32(byte, P5, 0xAE398151);
  }

  function UnAvalanche(y: u32): u32
  {
    var h2 := Xor32(Xor32(y, Shr32(y, 16)), Shr32(y, 32));
    var m2 := Mul32(h2, 0xA89ED915);
    var h1 := Xor32(Xor32(m2, Shr32(m2, 13)), Shr32(m2, 26));
    var m1 := Mul32(h1, 0xB6C92F47);
    Xor32(Xor32(m1, Shr32(m1, 15)), Shr32(m1, 30))
  }

  lemma AvalancheUndone(h: u32)
    ensures UnAvalanche(Avalanche(h)) == h
  {
    hide Xor32, Shr32, Mul32;
    var x1 := Xor32(h, Shr32(h, 15));
    var h1 := Mul32(x1, P2);
    var x2 := Xor32(h1, Shr32(h1, 13));
    var h2 := Mul32(x2, P3);
    UnXorShift32(h2, 16);
    UnMul32(x2, P3, 0xA89ED915);
    UnXorShift32(h1, 13);
    UnMul32(x1, P2, 0xB6C92F47);
    UnXorShift32(h, 15);
  }

  /** The hash of nothing gives the seed back. */
  lemma EmptyHash(seed: u32)
    ensures UnAvalanche(Hash([], seed)) == (seed + 0x165667B1) % TWO32
  {
    hide Avalanche, UnAvalanche;
    var h := Add32(Add32(seed, P5), 0);
    AvalancheUndone(h);
    DivModUnique(Add32(seed, P5), TWO32, 0, Add32(seed, P5));
  }

  // ---------------------------------------------------------------- one changed byte

  lemma ReadOneByte(a: seq<u8>, b: seq<u8>, j: nat, p: nat)
    requires OneByte(a, b, j) && p + 4 <= |a|
    ensures ReadLE32(a, p) == ReadLE32(b, p) <==> !(p <= j < p + 4)
  {
    hide LittleEndian, ToBytes;
    BytesOfLittleEndian(a[p..p + 4]);
    BytesOfLittleEndian(b[p..p + 4]);
    if p <= j < p + 4 {
      assert a[p..p + 4][j - p] != b[p..p + 4][j - p];
    } else {
      assert a[p..p + 4] == b[p..p + 4];
    }
  }

  lemma {:induction false} FinishInjective(g: u32, h: u32, tail: seq<u8>)
    requires g != h
    ensures Finish(g, tail) != Finish(h, tail)
    decreases |tail|
  {
    hide Process4, Process1, Avalanche, UnProcess4, UnProcess1, UnAvalanche, ReadLE32, Finish;
    FinishStep(g, tail);
    FinishStep(h, tail);
    if |tail| >= 4 {
      Process4Undone(g, ReadLE32(tail, 0));
      Process4Undone(h, ReadLE32(tail, 0));
      FinishInjective(Process4(g, ReadLE32(tail, 0)), Process4(h, ReadLE32(tail, 0)), tail[4..]);
    } else if |tail| > 0 {
      Process1Undone(g, tail[0]);
      Process1Undone(h, tail[0]);
      FinishInjective(Process1(g, tail[0]), Process1(h, tail[0]), tail[1..]);
    } else {
      AvalancheUndone(g);
      AvalancheUndone(h);
    }
  }

  lemma {:induction false} FinishOneByte(h: u32, a: seq<u8>, b: seq<u8>, j: nat)
    requires OneByte(a, b, j)
    ensures Finish(h, a) != Finish(h, b)
    decreases |a|
  {
    hide Process4, Process1, Avalanche, Process4Word, Process1Byte, ReadLE32, Finish;
    FinishStep(h, a);
    FinishStep(h, b);
    if |a| >= 4 {
      var x, y := ReadLE32(a, 0), ReadLE32(b, 0);
      ReadOneByte(a, b, j, 0);
      if j < 4 {
        Process4Undone(h, x);
        Process4Undone(h, y);
        assert a[4..] == b[4..];
        FinishInjective(Process4(h, x), Process4(h, y), a[4..]);
      } else {
        FinishOneByte(Process4(h, x), a[4..], b[4..], j - 4);
      }
    } else if j == 0 {
      Process1Undone(h, a[0]);
      Process1Undone(h, b[0]);
      assert a[1..] == b[1..];
      FinishInjective(Process1(h, a[0]), Process1(h, b[0]), a[1..]);
    } else {
      FinishOneByte(Process1(h, a[0]), a[1..], b[1..], j - 1);
    }
  }

  /** Exactly one lane differs. */
  predicate OneLane(v: Lanes, w: Lanes, l: nat)
  {
    l < 4 && v[l] != w[l] && forall i :: 0 <= i < 4 && i != l ==> v[i] == w[i]
  }

  lemma AbsorbKeepsLane(v: Lanes, w: Lanes, l: nat, stripe: seq<u8>)
    requires OneLane(v, w, l) && |stripe| == 16
    ensures OneLane(Absorb(v, stripe), Absorb(w, stripe), l)
  {
    hide Round, UnRound, RoundInput, ReadLE32;
    RoundUndone(v[l], ReadLE32(stripe, 4 * l));
    RoundUndone(w[l], ReadLE32(stripe, 4 * l));
  }

  lemma AbsorbOneByte(v: Lanes, a: seq<u8>, b: seq<u8>, j: nat)
    requires OneByte(a, b, j) && |a| == 16
    ensures OneLane(Absorb(v, a), Absorb(v, b), j / 4)
  {
    hide Round, UnRound, RoundInput, ReadLE32;
    ReadOneByte(a, b, j, 0);
    ReadOneByte(a, b, j, 4);
    ReadOneByte(a, b, j, 8);
    ReadOneByte(a, b, j, 12);
    RoundUndone(v[j / 4], ReadLE32(a, 4 * (j / 4)));
    RoundUndone(v[j / 4], ReadLE32(b, 4 * (j / 4)));
  }

  lemma {:induction false} FoldOneByte(seed: u32, a: seq<u8>, b: seq<u8>, j: nat, n: nat)
    requires OneByte(a, b, j) && 16 * n <= |a|
    ensures if j < 16 * n then OneLane(Fold(seed, a, n), Fold(seed, b, n), j % 16 / 4)
            else Fold(seed, a, n) == Fold(seed, b, n)
  {
    hide Absorb, OneLane, InitLanes;
    if n != 0 {
      FoldOneByte(seed, a, b, j, n - 1);
      var s, t := a[16 * (n - 1)..16 * n], b[16 * (n - 1)..16 * n];
      if 16 * (n - 1) <= j < 16 * n {
        var i := j - 16 * (n - 1);
        DivModUnique(j, 16, n - 1, i);
        assert s[i] == a[j] && t[i] == b[j];
        AbsorbOneByte(Fold(seed, a, n - 1), s, t, i);
      } else {
        assert s == t;
        if j < 16 * (n - 1) { AbsorbKeepsLane(Fold(seed, a, n - 1), Fold(seed, b, n - 1), j % 16 / 4, s); }
      }
    }
  }

  lemma MergeOneLane(v: Lanes, w: Lanes, l: nat)
    requires OneLane(v, w, l)
    ensures Merge(v) != Merge(w)
  {
    hide Merge, Rotl32, Add32, Sub32;
    MergeUndone(v);
    MergeUndone(w);
  }

  /** Changing one byte of an input, of whatever length and wherever the byte is, changes the hash. */
  lemma OneByteChangesHash(a: seq<u8>, b: seq<u8>, seed: u32, j: nat)
    requires OneByte(a, b, j)
    ensures Hash(a, seed) != Hash(b, seed)
  {
    hide Hash, Fold, Merge, Finish, Add32, OneLane;
    HashParts(a, seed);
    HashParts(b, seed);
    var n, len := |a| / 16, |a| % TWO32;
    FoldOneByte(seed, a, b, j, n);
    if j < 16 * n {
      var g, h := Merge(Fold(seed, a, n)), Merge(Fold(seed, b, n));
      MergeOneLane(Fold(seed, a, n), Fold(seed, b, n), j % 16 / 4);
      UnAdd32(g, len);
      UnAdd32(h, len);
      assert a[16 * n..] == b[16 * n..];
      FinishInjective(Add32(g, len), Add32(h, len), a[16 * n..]);
    } else {
      var h := if |a| >= 16 then Merge(Fold(seed, a, n)) else Add32(seed, P5);
      FinishOneByte(Add32(h, len), a[16 * n..], b[16 * n..], j - 16 * n);
    }
  }
}
