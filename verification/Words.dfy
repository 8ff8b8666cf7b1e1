/** Fixed-width unsigned words as bounded integers, with the C operators written out:
    wrap-around is an explicit `%`, a right shift is a division by a power of two, and the
    bitwise operators are defined bit by bit. */
module Words {
  import opened Arith

  type u8 = x: int | 0 <= x < 0x100
  type u32 = x: int | 0 <= x < 0x1_0000_0000
  type u64 = x: int | 0 <= x < 0x1_0000_0000_0000_0000

  // ---------------------------------------------------------------- powers of two

  function Pow2(n: nat): (r: nat)
    ensures r > 0
  {
    if n == 0 then 1 else 2 * Pow2(n - 1)
  }

  lemma {:induction false} Pow2Add(m: nat, n: nat)
    ensures Pow2(m + n) == Pow2(m) * Pow2(n)
  {
    if m == 0 {
    } else {
      Pow2Add(m - 1, n);
      assert Pow2(m) * Pow2(n) == 2 * (Pow2(m - 1) * Pow2(n));
    }
  }

  lemma Pow2Values()
    ensures Pow2(8) == 0x100
    ensures Pow2(16) == 0x1_0000
    ensures Pow2(24) == 0x100_0000
    ensures Pow2(32) == TWO32
    ensures Pow2(64) == TWO64
  {
    assert Pow2(4) == 16;
    Pow2Add(4, 4);
    hide Pow2;
    Pow2Add(8, 8);
    Pow2Add(8, 16);
    Pow2Add(16, 16);
    Pow2Add(32, 32);
  }

  // ---------------------------------------------------------------- bitwise operators

  function Xor(a: nat, b: nat): nat
    decreases a + b
  {
    if a == 0 && b == 0 then 0 else 2 * Xor(a / 2, b / 2) + (a + b) % 2
  }

  function Or(a: nat, b: nat): nat
    decreases a + b
  {
    if a == 0 && b == 0 then 0 else 2 * Or(a / 2, b / 2) + (if a % 2 == 1 || b % 2 == 1 then 1 else 0)
  }

  function And(a: nat, b: nat): nat
    decreases a + b
  {
    if a == 0 && b == 0 then 0 else 2 * And(a / 2, b / 2) + (if a % 2 == 1 && b % 2 == 1 then 1 else 0)
  }

  lemma {:induction false} XorBound(a: nat, b: nat, n: nat)
    requires a < Pow2(n) && b < Pow2(n)
    ensures Xor(a, b) < Pow2(n)
  {
    if a == 0 && b == 0 {
    } else {
      XorBound(a / 2, b / 2, n - 1);
    }
  }

  lemma {:induction false} OrBound(a: nat, b: nat, n: nat)
    requires a < Pow2(n) && b < Pow2(n)
    ensures Or(a, b) < Pow2(n)
  {
    if a == 0 && b == 0 {
    } else {
      OrBound(a / 2, b / 2, n - 1);
    }
  }

  lemma {:induction false} OrZero(a: nat)
    ensures Or(a, 0) == a
  {
    if a != 0 {
      OrZero(a / 2);
    }
  }

  /** Words without a common set bit: `|` is addition. */
  lemma {:induction false} OrDisjoint(a: nat, b: nat, n: nat)
    requires b < Pow2(n)
    ensures Or(a * Pow2(n), b) == a * Pow2(n) + b
  {
    if n == 0 {
      OrZero(a);
    } else {
      var p := a * Pow2(n - 1);
      assert a * Pow2(n) == 2 * p;
      OrDisjoint(a, b / 2, n - 1);
      assert (2 * p) / 2 == p && (2 * p) % 2 == 0;
    }
  }

  lemma {:induction false} AndZero(a: nat)
    ensures And(a, 0) == 0
  {
    if a != 0 {
      AndZero(a / 2);
    }
  }

  lemma AndOdd(a: nat, m: nat)
    ensures And(a, 2 * m + 1) == 2 * And(a / 2, m) + a % 2
  {
    DivModUnique(2 * m + 1, 2, m, 1);
  }

  /** A mask of low ones is a remainder. */
  lemma {:induction false} AndLowMask(a: nat, n: nat)
    ensures And(a, Pow2(n) - 1) == a % Pow2(n)
  {
    hide And, Pow2;
    Pow2Step(n);
    if n == 0 {
      AndZero(a);
    } else {
      AndLowMask(a / 2, n - 1);
      var p := Pow2(n - 1);
      AndOdd(a, p - 1);
      ModHalves(a, p);
    }
  }

  lemma Pow2Step(n: nat)
    ensures Pow2(n) == if n == 0 then 1 else 2 * Pow2(n - 1)
  {
  }

  function Doubled(a: nat, n: nat): nat { if n == 0 then a else 2 * Doubled(a, n - 1) }

  function Halved(a: nat, n: nat): nat { if n == 0 then a else Halved(a / 2, n - 1) }

  /** A mask shifted left by `n` selects from the bits above `n`. */
  lemma {:induction false} AndHighMask(a: nat, m: nat, n: nat)
    ensures And(a, Doubled(m, n)) == Doubled(And(Halved(a, n), m), n)
  {
    if n != 0 {
      AndHighMask(a / 2, m, n - 1);
      var mp := Doubled(m, n - 1);
      assert (2 * mp) / 2 == mp && (2 * mp) % 2 == 0;
    }
  }

  lemma {:induction false} DoubledIsProduct(a: nat, n: nat)
    ensures Doubled(a, n) == a * Pow2(n)
  {
    if n != 0 {
      DoubledIsProduct(a, n - 1);
      var p := Pow2(n - 1);
      assert 2 * (a * p) == a * (2 * p);
    }
  }

  lemma {:induction false} HalvedIsQuotient(a: nat, n: nat)
    ensures Halved(a, n) == a / Pow2(n)
  {
    if n != 0 {
      HalvedIsQuotient(a / 2, n - 1);
      DivHalves(a, Pow2(n - 1));
    }
  }

  // ---------------------------------------------------------------- 64-bit operators

  function Add64(a: int, b: int): u64 { (a + b) % TWO64 }

  function Sub64(a: int, b: int): u64 { (a - b) % TWO64 }

  function Mul64(a: int, b: int): u64 { (a * b) % TWO64 }

  function Xor64(a: u64, b: u64): u64
  {
    Pow2Values();
    XorBound(a, b, 64);
    Xor(a, b)
  }

  function Shr64(a: u64, n: nat): u64
  {
    DivBound(a, Pow2(n));
    a / Pow2(n)
  }

  function Shl64(a: int, n: nat): u64 { (a * Pow2(n)) % TWO64 }

  function Or64(a: u64, b: u64): u64
  {
    Pow2Values();
    OrBound(a, b, 64);
    Or(a, b)
  }

  function Rotl64(a: u64, n: nat): u64
    requires n <= 64
  {
    Or64(Shl64(a, n), Shr64(a, 64 - n))
  }

  // ---------------------------------------------------------------- 32-bit operators

  function Add32(a: int, b: int): u32 { (a + b) % TWO32 }

  function Sub32(a: int, b: int): u32 { (a - b) % TWO32 }

  function Mul32(a: int, b: int): u32 { (a * b) % TWO32 }

  function Xor32(a: u32, b: u32): u32
  {
    Pow2Values();
    XorBound(a, b, 32);
    Xor(a, b)
  }

  function Shr32(a: u32, n: nat): u32
  {
    DivBound(a, Pow2(n));
    a / Pow2(n)
  }

  function Shl32(a: int, n: nat): u32 { (a * Pow2(n)) % TWO32 }

  function Or32(a: u32, b: u32): u32
  {
    Pow2Values();
    OrBound(a, b, 32);
    Or(a, b)
  }

  function Rotl32(a: u32, n: nat): u32
    requires n <= 32
  {
    Or32(Shl32(a, n), Shr32(a, 32 - n))
  }

  // ---------------------------------------------------------------- little-endian memory

  /** The value of a little-endian byte string. */
  function LittleEndian(s: seq<u8>): nat
  {
    if |s| == 0 then 0 else s[0] + 0x100 * LittleEndian(s[1..])
  }

  /** The `n` low bytes of `v`, least significant first. */
  function ToBytes(v: nat, n: nat): (s: seq<u8>)
    ensures |s| == n
  {
    if n == 0 then [] else [v % 0x100] + ToBytes(v / 0x100, n - 1)
  }

  lemma {:induction false} LittleEndianBound(s: seq<u8>)
    ensures LittleEndian(s) < Pow2(8 * |s|)
  {
    hide Pow2;
    if |s| != 0 {
      LittleEndianBound(s[1..]);
      Pow2Values();
      Pow2Add(8, 8 * |s[1..]|);
    }
  }

  /** Writing what was read gives the same bytes back. */
  lemma {:induction false} BytesOfLittleEndian(s: seq<u8>)
    ensures ToBytes(LittleEndian(s), |s|) == s
  {
    if |s| != 0 {
      var rest := LittleEndian(s[1..]);
      BytesOfLittleEndian(s[1..]);
      assert (s[0] + 0x100 * rest) % 0x100 == s[0] && (s[0] + 0x100 * rest) / 0x100 == rest;
    }
  }

  /** Reading what was written gives the value back. */
  lemma {:induction false} LittleEndianOfBytes(v: nat, n: nat)
    requires v < Pow2(8 * n)
    ensures LittleEndian(ToBytes(v, n)) == v
  {
    if n != 0 {
      Pow2Values();
      Pow2Add(8, 8 * (n - 1));
      LittleEndianOfBytes(v / 0x100, n - 1);
      assert ToBytes(v, n)[1..] == ToBytes(v / 0x100, n - 1);
    }
  }

  function ReadLE32(s: seq<u8>, off: nat): u32
    requires off + 4 <= |s|
  {
    LittleEndianBound(s[off..off + 4]);
    Pow2Values();
    LittleEndian(s[off..off + 4])
  }

  function ReadLE64(s: seq<u8>, off: nat): u64
    requires off + 8 <= |s|
  {
    LittleEndianBound(s[off..off + 8]);
    Pow2Values();
    LittleEndian(s[off..off + 8])
  }

  function WriteLE64(v: u64): (s: seq<u8>)
    ensures |s| == 8
  {
    ToBytes(v, 8)
  }

  lemma WriteAfterRead(s: seq<u8>, off: nat)
    requires off + 8 <= |s|
    ensures WriteLE64(ReadLE64(s, off)) == s[off..off + 8]
  {
    BytesOfLittleEndian(s[off..off + 8]);
  }

  /** Equal except for byte `j`. */
  predicate OneByte(a: seq<u8>, b: seq<u8>, j: nat)
  {
    |a| == |b| && j < |a| && a[j] != b[j] && forall i :: 0 <= i < |a| && i != j ==> a[i] == b[i]
  }

  /** A string given in pieces. */
  function Concat(pieces: seq<seq<u8>>): seq<u8>
  {
    if |pieces| == 0 then [] else Concat(pieces[..|pieces| - 1]) + pieces[|pieces| - 1]
  }

  // ---------------------------------------------------------------- byte swaps

  function Reversed(s: seq<u8>): (r: seq<u8>)
    ensures |r| == |s|
  {
    seq(|s|, i requires 0 <= i < |s| => s[|s| - 1 - i])
  }

  function ByteSwap32(x: u32): u32
  {
    var b := Reversed(ToBytes(x, 4));
    ReadLE32(b, 0)
  }

  function ByteSwap64(x: u64): u64
  {
    var b := Reversed(ToBytes(x, 8));
    ReadLE64(b, 0)
  }
}
