/** The word primitives of the compile-time implementation, built from shifts, masks and `|`,
    each proved equal to the memory-based primitive of the runtime implementation. */
module ConstexprWords {
  import opened Arith
  import opened Words
  import opened Multiply

  lemma {:induction false} OrComm(a: nat, b: nat)
    ensures Or(a, b) == Or(b, a)
    decreases a + b
  {
    if a != 0 || b != 0 {
      OrComm(a / 2, b / 2);
    }
  }

  /** `low | (byte << n)` where `low` has at most `n` bits. */
  lemma OrByteAbove(low: nat, byte: nat, n: nat, shifted: nat)
    requires low < Pow2(n) && shifted == byte * Pow2(n)
    ensures Or(low, shifted) == low + shifted && Or(shifted, low) == low + shifted
  {
    OrDisjoint(byte, low, n);
    OrComm(low, shifted);
  }

  lemma PowersUsed()
    ensures Pow2(8) == 0x100 && Pow2(16) == 0x1_0000 && Pow2(24) == 0x100_0000
    ensures Pow2(32) == 0x1_0000_0000 && Pow2(40) == 0x100_0000_0000
    ensures Pow2(48) == 0x1_0000_0000_0000 && Pow2(56) == 0x100_0000_0000_0000
    ensures Pow2(64) == 0x1_0000_0000_0000_0000
  {
    Pow2Values();
    Pow2Add(32, 8);
    Pow2Add(32, 16);
    Pow2Add(32, 24);
  }

  lemma Pow2Zero()
    ensures Pow2(0) == 1
  {
  }

  lemma LittleEndian4(s: seq<u8>)
    requires |s| == 4
    ensures LittleEndian(s)
        == (s[0] as int) + 0x100 * (s[1] as int) + 0x1_0000 * (s[2] as int) + 0x100_0000 * (s[3] as int)
  {
    LittleEndianStep(s);
    LittleEndianStep(s[1..]);
    LittleEndianStep(s[2..]);
    LittleEndianStep(s[3..]);
    assert s[1..][1..] == s[2..] && s[2..][1..] == s[3..] && s[3..][1..] == [];
  }

  lemma LittleEndianStep(s: seq<u8>)
    requires |s| > 0
    ensures LittleEndian(s) == (s[0] as int) + 0x100 * LittleEndian(s[1..])
  {
  }

  lemma LittleEndian8(s: seq<u8>)
    requires |s| == 8
    ensures LittleEndian(s) == LittleEndian(s[..4]) + 0x1_0000_0000 * LittleEndian(s[4..])
  {
    LittleEndian4(s[..4]);
    LittleEndianStep(s);
    LittleEndianStep(s[1..]);
    LittleEndianStep(s[2..]);
    LittleEndianStep(s[3..]);
    assert s[1..][1..] == s[2..] && s[2..][1..] == s[3..] && s[3..][1..] == s[4..];
  }

  // ---------------------------------------------------------------- loads

  function CRead32(s: seq<u8>, i: nat): (r: u32)
    requires i + 4 <= |s|
    ensures r == ReadLE32(s, i)
  {
    Read32Value(s, i);
    Or32(Or32(Or32(s[i], Shl32(s[i + 1], 8)), Shl32(s[i + 2], 16)), Shl32(s[i + 3], 24))
  }

  lemma Read32Value(s: seq<u8>, i: nat)
    requires i + 4 <= |s|
    ensures Or32(Or32(Or32(s[i], Shl32(s[i + 1], 8)), Shl32(s[i + 2], 16)), Shl32(s[i + 3], 24)) == ReadLE32(s, i)
  {
    hide Pow2, Or, LittleEndian;
    PowersUsed();
    var b0: int, b1: int, b2: int, b3: int := s[i], s[i + 1], s[i + 2], s[i + 3];
    OrByteAbove(b0, b1, 8, Shl32(b1, 8));
    OrByteAbove(b0 + 0x100 * b1, b2, 16, Shl32(b2, 16));
    OrByteAbove(b0 + 0x100 * b1 + 0x1_0000 * b2, b3, 24, Shl32(b3, 24));
    LittleEndian4(s[i..i + 4]);
  }

  function CRead64(s: seq<u8>, i: nat): (r: u64)
    requires i + 8 <= |s|
    ensures r == ReadLE64(s, i)
  {
    Read64Value(s, i);
    Or64(CRead32(s, i), Shl64(CRead32(s, i + 4), 32))
  }

  lemma Read64Value(s: seq<u8>, i: nat)
    requires i + 8 <= |s|
    ensures Or64(ReadLE32(s, i), Shl64(ReadLE32(s, i + 4), 32)) == ReadLE64(s, i)
  {
    hide Pow2, Or, LittleEndian;
    var lo: int, hi: int := ReadLE32(s, i), ReadLE32(s, i + 4);
    PowersUsed();
    assert Shl64(hi, 32) == hi * 0x1_0000_0000;
    OrByteAbove(lo, hi, 32, Shl64(hi, 32));
    var w := s[i..i + 8];
    LittleEndian8(w);
    assert w[..4] == s[i..i + 4] && w[4..] == s[i + 4..i + 8];
  }

  // ---------------------------------------------------------------- byte swaps

  /** Masking one byte in place. */
  lemma MaskByte(v: nat, n: nat, mask: nat)
    requires mask == 0xff * Pow2(n)
    ensures And(v, mask) == ((v / Pow2(n)) % 0x100) * Pow2(n)
  {
    DoubledIsProduct(0xff, n);
    HalvedIsQuotient(v, n);
    AndHighMask(v, 0xff, n);
    PowersUsed();
    AndLowMask(Halved(v, n), 8);
    DoubledIsProduct(Halved(v, n) % 0x100, n);
  }

  function ByteOf(x: nat, i: nat): (b: nat)
    ensures b < 0x100
  {
    (x / Pow2(8 * i)) % 0x100
  }

  lemma {:induction false} ToBytesAt(v: nat, n: nat, i: nat)
    requires i < n
    ensures ToBytes(v, n)[i] == ByteOf(v, i)
  {
    hide Pow2;
    PowersUsed();
    Pow2Zero();
    if i != 0 {
      ToBytesAt(v / 0x100, n - 1, i - 1);
      Pow2Add(8, 8 * (i - 1));
      DivTwice(v, 0x100, Pow2(8 * (i - 1)));
    }
  }

  function CSwap32(x: u32): (r: u32)
    ensures r == ByteSwap32(x)
  {
    Swap32Masks(x);
    Swap32Value(x);
    var b3, b2 := And(Shl32(x, 24), 0xff00_0000), And(Shl32(x, 8), 0x00ff_0000);
    var b1, b0 := And(Shr32(x, 8), 0x0000_ff00), And(Shr32(x, 24), 0x0000_00ff);
    Or32(Or32(Or32(b3, b2), b1), b0)
  }

  /** Each masked term holds one byte of `x`, moved to the mirrored place. */
  lemma Swap32Masks(x: u32)
    ensures And(Shl32(x, 24), 0xff00_0000) == ByteOf(x, 0) * 0x100_0000
    ensures And(Shl32(x, 8), 0x00ff_0000) == ByteOf(x, 1) * 0x1_0000
    ensures And(Shr32(x, 8), 0x0000_ff00) == ByteOf(x, 2) * 0x100
    ensures And(Shr32(x, 24), 0x0000_00ff) == ByteOf(x, 3)
  {
    hide And, Shl32, Shr32, Pow2, ByteOf;
    PowersUsed();
    Pow2Zero();
    Bytes32(x);
    MaskByte(Shl32(x, 24), 24, 0xff00_0000);
    MaskByte(Shl32(x, 8), 16, 0x00ff_0000);
    MaskByte(Shr32(x, 8), 8, 0x0000_ff00);
    MaskByte(Shr32(x, 24), 0, 0x0000_00ff);
  }

  lemma Bytes32(x: u32)
    ensures (Shl32(x, 24) / 0x100_0000) % 0x100 == ByteOf(x, 0)
    ensures (Shl32(x, 8) / 0x1_0000) % 0x100 == ByteOf(x, 1)
    ensures (Shr32(x, 8) / 0x100) % 0x100 == ByteOf(x, 2)
    ensures Shr32(x, 24) % 0x100 == ByteOf(x, 3)
  {
    hide Pow2;
    PowersUsed();
    Pow2Zero();
    Up24In32(x);
    Up8In32(x);
    var y: int := x;
    DivTwice(y, 0x100, 0x100);
    DivModUnique(y / 0x100_0000, 0x100, 0, y / 0x100_0000);
  }

  lemma Swap32Value(x: u32)
    ensures
      var b3, b2, b1, b0 := ByteOf(x, 0) * 0x100_0000, ByteOf(x, 1) * 0x1_0000, ByteOf(x, 2) * 0x100, ByteOf(x, 3);
      Or32(Or32(Or32(b3, b2), b1), b0) == b3 + b2 + b1 + b0 == ByteSwap32(x)
  {
    hide ByteOf, Or, Pow2, ByteSwap32;
    var c0, c1, c2, c3 := ByteOf(x, 0), ByteOf(x, 1), ByteOf(x, 2), ByteOf(x, 3);
    PowersUsed();
    OrByteAbove(c1 * 0x1_0000, c0, 24, c0 * 0x100_0000);
    OrByteAbove(c2 * 0x100, c0 * 0x100 + c1, 16, c0 * 0x100_0000 + c1 * 0x1_0000);
    OrByteAbove(c3, c0 * 0x1_0000 + c1 * 0x100 + c2, 8, c0 * 0x100_0000 + c1 * 0x1_0000 + c2 * 0x100);
    ReversedBytes(x);
  }

  lemma ReversedBytes(x: u32)
    ensures ByteSwap32(x) == ByteOf(x, 0) * 0x100_0000 + ByteOf(x, 1) * 0x1_0000 + ByteOf(x, 2) * 0x100 + ByteOf(x, 3)
  {
    hide ByteOf;
    var b := Reversed(ToBytes(x, 4));
    ToBytesAt(x, 4, 0);
    ToBytesAt(x, 4, 1);
    ToBytesAt(x, 4, 2);
    ToBytesAt(x, 4, 3);
    assert b[0..4] == b;
    LittleEndian4(b);
  }

  // The 64-bit swap moves eight bytes; its upper and lower half are handled separately.

  function CSwap64High(x: u64): nat
  {
    var b7, b6 := And(Shl64(x, 56), 0xff00_0000_0000_0000), And(Shl64(x, 40), 0x00ff_0000_0000_0000);
    var b5, b4 := And(Shl64(x, 24), 0x0000_ff00_0000_0000), And(Shl64(x, 8), 0x0000_00ff_0000_0000);
    Or(Or(Or(b7, b6), b5), b4)
  }

  function CSwap64(x: u64): (r: u64)
    ensures r == ByteSwap64(x)
  {
    Swap64High(x);
    Swap64Low(x);
    Swap64Value(x);
    var b3, b2 := And(Shr64(x, 8), 0xff00_0000), And(Shr64(x, 24), 0x00ff_0000);
    var b1, b0 := And(Shr64(x, 40), 0x0000_ff00), And(Shr64(x, 56), 0x0000_00ff);
    Or(Or(Or(Or(CSwap64High(x), b3), b2), b1), b0)
  }

  lemma Swap64High(x: u64)
    ensures CSwap64High(x)
            == (ByteOf(x, 0) * 0x100_0000 + ByteOf(x, 1) * 0x1_0000 + ByteOf(x, 2) * 0x100
                + ByteOf(x, 3)) * 0x1_0000_0000
  {
    hide And, Or, ByteOf, Shl64;
    var c0, c1, c2, c3 := ByteOf(x, 0), ByteOf(x, 1), ByteOf(x, 2), ByteOf(x, 3);
    HighMasks(x);
    HighOr(c0, c1, c2, c3);
  }

  lemma HighOr(c0: nat, c1: nat, c2: nat, c3: nat)
    requires c0 < 0x100 && c1 < 0x100 && c2 < 0x100 && c3 < 0x100
    ensures
      var b7, b6, b5, b4 := c0 * 0x100_0000_0000_0000, c1 * 0x1_0000_0000_0000, c2 * 0x100_0000_0000,
          c3 * 0x1_0000_0000;
      Or(Or(Or(b7, b6), b5), b4) == (c0 * 0x100_0000 + c1 * 0x1_0000 + c2 * 0x100 + c3) * 0x1_0000_0000
  {
    hide Or, Pow2;
    PowersUsed();
    var b7, b6, b5, b4 := c0 * 0x100_0000_0000_0000, c1 * 0x1_0000_0000_0000, c2 * 0x100_0000_0000, c3 * 0x1_0000_0000;
    OrByteAbove(b6, c0, 56, b7);
    OrByteAbove(b5, c0 * 0x100 + c1, 48, b7 + b6);
    OrByteAbove(b4, c0 * 0x1_0000 + c1 * 0x100 + c2, 40, b7 + b6 + b5);
  }

  /** The four bytes that move up. */
  lemma HighMasks(x: u64)
    ensures And(Shl64(x, 56), 0xff00_0000_0000_0000) == ByteOf(x, 0) * 0x100_0000_0000_0000
    ensures And(Shl64(x, 40), 0x00ff_0000_0000_0000) == ByteOf(x, 1) * 0x1_0000_0000_0000
    ensures And(Shl64(x, 24), 0x0000_ff00_0000_0000) == ByteOf(x, 2) * 0x100_0000_0000
    ensures And(Shl64(x, 8), 0x0000_00ff_0000_0000) == ByteOf(x, 3) * 0x1_0000_0000
  {
    hide And, Shl64;
    PowersUsed();
    BytesUp(x);
    MaskByte(Shl64(x, 56), 56, 0xff00_0000_0000_0000);
    MaskByte(Shl64(x, 40), 48, 0x00ff_0000_0000_0000);
    MaskByte(Shl64(x, 24), 40, 0x0000_ff00_0000_0000);
    MaskByte(Shl64(x, 8), 32, 0x0000_00ff_0000_0000);
  }

  lemma BytesUp(x: u64)
    ensures (Shl64(x, 56) / 0x100_0000_0000_0000) % 0x100 == ByteOf(x, 0)
    ensures (Shl64(x, 40) / 0x1_0000_0000_0000) % 0x100 == ByteOf(x, 1)
    ensures (Shl64(x, 24) / 0x100_0000_0000) % 0x100 == ByteOf(x, 2)
    ensures (Shl64(x, 8) / 0x1_0000_0000) % 0x100 == ByteOf(x, 3)
  {
    hide Pow2;
    PowersUsed();
    Pow2Zero();
    Up56(x);
    Up40(x);
    Up24(x);
    Up8(x);
  }

  lemma Swap64Low(x: u64)
    ensures And(Shr64(x, 8), 0xff00_0000) == ByteOf(x, 4) * 0x100_0000
    ensures And(Shr64(x, 24), 0x00ff_0000) == ByteOf(x, 5) * 0x1_0000
    ensures And(Shr64(x, 40), 0x0000_ff00) == ByteOf(x, 6) * 0x100
    ensures And(Shr64(x, 56), 0x0000_00ff) == ByteOf(x, 7)
  {
    hide And, Shr64;
    PowersUsed();
    BytesDown(x);
    MaskByte(Shr64(x, 8), 24, 0xff00_0000);
    MaskByte(Shr64(x, 24), 16, 0x00ff_0000);
    MaskByte(Shr64(x, 40), 8, 0x0000_ff00);
    MaskByte(Shr64(x, 56), 0, 0x0000_00ff);
  }

  lemma BytesDown(x: u64)
    ensures (Shr64(x, 8) / 0x100_0000) % 0x100 == ByteOf(x, 4)
    ensures (Shr64(x, 24) / 0x1_0000) % 0x100 == ByteOf(x, 5)
    ensures (Shr64(x, 40) / 0x100) % 0x100 == ByteOf(x, 6)
    ensures Shr64(x, 56) % 0x100 == ByteOf(x, 7)
  {
    hide Pow2;
    PowersUsed();
    var y: int := x;
    DivTwice(y, 0x100, 0x100_0000);
    DivTwice(y, 0x100_0000, 0x1_0000);
    DivTwice(y, 0x100_0000_0000, 0x100);
  }

  lemma Swap64Value(x: u64)
    ensures
      var high := (ByteOf(x, 0) * 0x100_0000 + ByteOf(x, 1) * 0x1_0000 + ByteOf(x, 2) * 0x100
                   + ByteOf(x, 3)) * 0x1_0000_0000;
      var b3, b2, b1, b0 := ByteOf(x, 4) * 0x100_0000, ByteOf(x, 5) * 0x1_0000, ByteOf(x, 6) * 0x100, ByteOf(x, 7);
      Or(Or(Or(Or(high, b3), b2), b1), b0) == high + b3 + b2 + b1 + b0 == ByteSwap64(x)
  {
    hide ByteOf, Or, Pow2, ByteSwap64;
    PowersUsed();
    var h := ByteOf(x, 0) * 0x100_0000 + ByteOf(x, 1) * 0x1_0000 + ByteOf(x, 2) * 0x100 + ByteOf(x, 3);
    var c4, c5, c6, c7 := ByteOf(x, 4), ByteOf(x, 5), ByteOf(x, 6), ByteOf(x, 7);
    OrByteAbove(c4 * 0x100_0000, h, 32, h * 0x1_0000_0000);
    OrByteAbove(c5 * 0x1_0000, h * 0x100 + c4, 24, h * 0x1_0000_0000 + c4 * 0x100_0000);
    OrByteAbove(c6 * 0x100, h * 0x1_0000 + c4 * 0x100 + c5, 16, h * 0x1_0000_0000 + c4 * 0x100_0000 + c5 * 0x1_0000);
    OrByteAbove(c7, h * 0x100_0000 + c4 * 0x1_0000 + c5 * 0x100 + c6, 8,
                h * 0x1_0000_0000 + c4 * 0x100_0000 + c5 * 0x1_0000 + c6 * 0x100);
    ReversedBytes64(x);
  }

  lemma ReversedBytes64(x: u64)
    ensures
      var high := ByteOf(x, 0) * 0x100_0000 + ByteOf(x, 1) * 0x1_0000 + ByteOf(x, 2) * 0x100 + ByteOf(x, 3);
      var low := ByteOf(x, 4) * 0x100_0000 + ByteOf(x, 5) * 0x1_0000 + ByteOf(x, 6) * 0x100 + ByteOf(x, 7);
      ByteSwap64(x) == high * 0x1_0000_0000 + low
  {
    hide ByteOf;
    var b := Reversed(ToBytes(x, 8));
    forall i | 0 <= i < 8 ensures b[7 - i] == ByteOf(x, i) { ToBytesAt(x, 8, i); }
    assert b[0..8] == b;
    LittleEndian8(b);
    LittleEndian4(b[..4]);
    LittleEndian4(b[4..]);
  }

  // ---------------------------------------------------------------- multiply and fold

  function CMulFold64(lhs: u64, rhs: u64): (r: u64)
    ensures r == MulFold64(lhs, rhs)
  {
    PortableIsWide(lhs, rhs);
    var product := PortableProduct(lhs, rhs);
    Xor64(product.low, product.high)
  }
}
