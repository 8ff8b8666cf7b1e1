/** Words bit by bit: what the bitwise operators, shifts and rotations do to each bit, and which of
    the mixing steps built from them can be undone. */
module Bits {
  import opened Arith
  import opened Words

  /** Bit `i` of `a`. */
  function Bit(a: nat, i: nat): (b: nat)
    ensures b < 2
  {
    if i == 0 then a % 2 else Bit(a / 2, i - 1)
  }

  // ---------------------------------------------------------------- operators

  lemma XorStep(a: nat, b: nat)
    ensures Xor(a, b) % 2 == (a + b) % 2 && Xor(a, b) / 2 == Xor(a / 2, b / 2)
  {
    XorUnfolds(a, b);
    hide Xor;
    DivModUnique(Xor(a, b), 2, Xor(a / 2, b / 2), (a + b) % 2);
  }

  lemma XorUnfolds(a: nat, b: nat)
    ensures Xor(a, b) == 2 * Xor(a / 2, b / 2) + (a + b) % 2
  {
  }

  lemma OrStep(a: nat, b: nat)
    ensures Or(a, b) % 2 == (if a % 2 == 1 || b % 2 == 1 then 1 else 0) && Or(a, b) / 2 == Or(a / 2, b / 2)
  {
    OrUnfolds(a, b);
    hide Or;
    DivModUnique(Or(a, b), 2, Or(a / 2, b / 2), if a % 2 == 1 || b % 2 == 1 then 1 else 0);
  }

  lemma OrUnfolds(a: nat, b: nat)
    ensures Or(a, b) == 2 * Or(a / 2, b / 2) + if a % 2 == 1 || b % 2 == 1 then 1 else 0
  {
  }

  lemma AndStep(a: nat, b: nat)
    ensures And(a, b) % 2 == (if a % 2 == 1 && b % 2 == 1 then 1 else 0) && And(a, b) / 2 == And(a / 2, b / 2)
  {
    AndUnfolds(a, b);
    hide And;
    DivModUnique(And(a, b), 2, And(a / 2, b / 2), if a % 2 == 1 && b % 2 == 1 then 1 else 0);
  }

  lemma AndUnfolds(a: nat, b: nat)
    ensures And(a, b) == 2 * And(a / 2, b / 2) + if a % 2 == 1 && b % 2 == 1 then 1 else 0
  {
  }

  lemma {:induction false} BitXor(a: nat, b: nat, i: nat)
    ensures Bit(Xor(a, b), i) == (Bit(a, i) + Bit(b, i)) % 2
  {
    hide Xor;
    XorStep(a, b);
    if i != 0 {
      BitXor(a / 2, b / 2, i - 1);
    }
  }

  lemma {:induction false} BitOr(a: nat, b: nat, i: nat)
    ensures Bit(Or(a, b), i) == if Bit(a, i) == 1 || Bit(b, i) == 1 then 1 else 0
  {
    hide Or;
    OrStep(a, b);
    if i != 0 {
      BitOr(a / 2, b / 2, i - 1);
    }
  }

  lemma {:induction false} BitAnd(a: nat, b: nat, i: nat)
    ensures Bit(And(a, b), i) == if Bit(a, i) == 1 && Bit(b, i) == 1 then 1 else 0
  {
    hide And;
    AndStep(a, b);
    if i != 0 {
      BitAnd(a / 2, b / 2, i - 1);
    }
  }

  /** `^` is addition without carries. */
  lemma {:induction false} XorAndSum(a: nat, b: nat)
    ensures Xor(a, b) + 2 * And(a, b) == a + b
    decreases a + b
  {
    if a == 0 && b == 0 {
      assert Xor(0, 0) == 0 && And(0, 0) == 0;
    } else {
      hide Xor, And;
      XorAndSum(a / 2, b / 2);
      XorUnfolds(a, b);
      AndUnfolds(a, b);
      Halves(a, b);
    }
  }

  /** `|` counts common bits once. */
  lemma {:induction false} OrAndSum(a: nat, b: nat)
    ensures Or(a, b) + And(a, b) == a + b
    decreases a + b
  {
    if a == 0 && b == 0 {
      assert Or(0, 0) == 0 && And(0, 0) == 0;
    } else {
      hide Or, And;
      OrAndSum(a / 2, b / 2);
      OrUnfolds(a, b);
      AndUnfolds(a, b);
      Halves(a, b);
    }
  }

  lemma {:induction false} OrAssoc(a: nat, b: nat, c: nat)
    ensures Or(Or(a, b), c) == Or(a, Or(b, c))
    decreases a + b + c
  {
    if a == 0 && b == 0 && c == 0 {
      assert Or(0, 0) == 0;
    } else {
      hide Or;
      OrAssoc(a / 2, b / 2, c / 2);
      OrStep(a, b);
      OrStep(b, c);
      OrUnfolds(Or(a, b), c);
      OrUnfolds(a, Or(b, c));
    }
  }

  lemma Halves(a: nat, b: nat)
    ensures (a + b) % 2 == (a % 2 + b % 2) % 2 && a + b == 2 * (a / 2 + b / 2) + a % 2 + b % 2
  {
  }

  /** `^` undoes itself. */
  lemma {:induction false} XorCancel(a: nat, b: nat)
    ensures Xor(Xor(a, b), b) == a
    decreases a + b
  {
    if a == 0 && b == 0 {
      assert Xor(0, 0) == 0;
    } else {
      hide Xor;
      XorCancel(a / 2, b / 2);
      XorStep(a, b);
      var x := Xor(a, b);
      XorUnfolds(x, b);
      Parity(a, b, x);
    }
  }

  lemma Parity(a: nat, b: nat, x: nat)
    requires x % 2 == (a + b) % 2
    ensures (x + b) % 2 == a % 2
  {
    Halves(x, b);
    Halves(a, b);
  }

  lemma {:induction false} XorComm(a: nat, b: nat)
    ensures Xor(a, b) == Xor(b, a)
    decreases a + b
  {
    if a != 0 || b != 0 {
      XorComm(a / 2, b / 2);
      hide Xor;
      XorUnfolds(a, b);
      XorUnfolds(b, a);
    }
  }

  // ---------------------------------------------------------------- shifts

  function Shr(a: nat, n: nat): nat
  {
    DivBound(a, Pow2(n));
    a / Pow2(n)
  }

  lemma {:induction false} BitShr(a: nat, n: nat, i: nat)
    ensures Bit(Shr(a, n), i) == Bit(a, i + n)
  {
    hide Pow2;
    Pow2Step(n);
    if n != 0 {
      BitShr(a / 2, n - 1, i);
      DivHalves(a, Pow2(n - 1));
    }
  }

  lemma {:induction false} BitShl(a: nat, n: nat, i: nat)
    ensures Bit(a * Pow2(n), i) == if i < n then 0 else Bit(a, i - n)
  {
    hide Pow2;
    Pow2Step(n);
    if n != 0 {
      var p := a * Pow2(n - 1);
      assert a * Pow2(n) == 2 * p;
      assert (2 * p) / 2 == p && (2 * p) % 2 == 0;
      if i != 0 {
        BitShl(a, n - 1, i - 1);
      }
    }
  }

  lemma {:induction false} BitMod(a: nat, n: nat, i: nat)
    ensures Bit(a % Pow2(n), i) == if i < n then Bit(a, i) else 0
  {
    hide Pow2;
    Pow2Step(n);
    if n == 0 {
      BitZero(i);
    } else {
      var p := Pow2(n - 1);
      ModHalves(a, p);
      var m := (a / 2) % p;
      assert (2 * m + a % 2) / 2 == m && (2 * m + a % 2) % 2 == a % 2;
      if i != 0 {
        BitMod(a / 2, n - 1, i - 1);
      }
    }
  }

  lemma {:induction false} BitZero(i: nat)
    ensures Bit(0, i) == 0
  {
    if i != 0 { BitZero(i - 1); }
  }

  lemma BitHigh(a: nat, n: nat, i: nat)
    requires a < Pow2(n) && i >= n
    ensures Bit(a, i) == 0
  {
    hide Pow2, Bit;
    BitMod(a, n, i);
    DivModUnique(a, Pow2(n), 0, a);
  }

  /** Words with the same bits are equal. */
  lemma {:induction false} SameBits(a: nat, b: nat, n: nat)
    requires a < Pow2(n) && b < Pow2(n)
    requires forall i :: 0 <= i < n ==> Bit(a, i) == Bit(b, i)
    ensures a == b
  {
    if n != 0 {
      assert Bit(a, 0) == Bit(b, 0);
      forall i | 0 <= i < n - 1 ensures Bit(a / 2, i) == Bit(b / 2, i) {
        assert Bit(a, i + 1) == Bit(b, i + 1);
      }
      SameBits(a / 2, b / 2, n - 1);
    }
  }

  // ---------------------------------------------------------------- 64-bit words

  lemma Same64(a: u64, b: u64)
    requires forall i :: 0 <= i < 64 ==> Bit(a, i) == Bit(b, i)
    ensures a == b
  {
    hide Pow2, Bit;
    Pow2Values();
    SameBits(a, b, 64);
  }

  lemma High64(a: u64, i: nat)
    requires i >= 64
    ensures Bit(a, i) == 0
  {
    hide Pow2, Bit;
    Pow2Values();
    BitHigh(a, 64, i);
  }

  lemma BitXor64(a: u64, b: u64, i: nat)
    ensures Bit(Xor64(a, b), i) == (Bit(a, i) + Bit(b, i)) % 2
  {
    BitXor(a, b, i);
  }

  lemma BitShr64(a: u64, n: nat, i: nat)
    ensures Bit(Shr64(a, n), i) == Bit(a, i + n)
  {
    hide Bit, Pow2;
    BitShr(a, n, i);
  }

  lemma BitShl64(a: u64, n: nat, i: nat)
    requires i < 64
    ensures Bit(Shl64(a, n), i) == if i < n then 0 else Bit(a, i - n)
  {
    hide Pow2, Bit;
    Pow2Values();
    BitMod(a * Pow2(n), 64, i);
    BitShl(a, n, i);
  }

  /** A rotation moves every bit up by `n`, the top ones around to the bottom. */
  lemma BitRotl64(a: u64, n: nat, i: nat)
    requires i < 64 && n <= 64
    ensures Bit(Rotl64(a, n), i) == Bit(a, if i >= n then i - n else i + 64 - n)
  {
    hide Pow2, Bit, Or;
    BitOr(Shl64(a, n), Shr64(a, 64 - n), i);
    BitShl64(a, n, i);
    BitShr(a, 64 - n, i);
    if i >= n { High64(a, i + 64 - n); }
  }

  /** A rotation is undone by the opposite rotation. */
  lemma RotateBack64(a: u64, n: nat)
    requires n <= 64
    ensures Rotl64(Rotl64(a, n), 64 - n) == a
  {
    hide Bit, Rotl64;
    var r := Rotl64(a, n);
    forall i | 0 <= i < 64 ensures Bit(Rotl64(r, 64 - n), i) == Bit(a, i) {
      BitRotl64(r, 64 - n, i);
      BitRotl64(a, n, if i >= 64 - n then i - (64 - n) else i + n);
    }
    Same64(Rotl64(r, 64 - n), a);
  }

  lemma XorShiftBit64(v: u64, n: nat, i: nat)
    ensures Bit(Xor64(v, Shr64(v, n)), i) == (Bit(v, i) + Bit(v, i + n)) % 2
  {
    hide Bit, Xor64, Shr64;
    BitXor64(v, Shr64(v, n), i);
    BitShr64(v, n, i);
  }

  /** `v ^ (v >> n)` is undone by doing it again, if the word has no more than `2 * n` bits ... */
  lemma UnXorShift64(v: u64, n: nat)
    requires n >= 32
    ensures
      var y := Xor64(v, Shr64(v, n));
      Xor64(y, Shr64(y, n)) == v
  {
    hide Bit, Xor64, Shr64;
    var y := Xor64(v, Shr64(v, n));
    var z := Xor64(y, Shr64(y, n));
    forall i | 0 <= i < 64 ensures Bit(z, i) == Bit(v, i) {
      BitXor64(y, Shr64(y, n), i);
      BitShr64(y, n, i);
      BitXor64(v, Shr64(v, n), i);
      BitShr64(v, n, i);
      BitXor64(v, Shr64(v, n), i + n);
      BitShr64(v, n, i + n);
      High64(v, i + n + n);
    }
    Same64(z, v);
  }

  /** ... and with one more shift, if it has no more than `3 * n` bits. */
  lemma UnXorShift64Twice(v: u64, n: nat)
    requires 22 <= n
    ensures
      var y := Xor64(v, Shr64(v, n));
      Xor64(Xor64(y, Shr64(y, n)), Shr64(y, 2 * n)) == v
  {
    hide Bit, Xor64, Shr64;
    var y := Xor64(v, Shr64(v, n));
    var x := Xor64(y, Shr64(y, n));
    var z := Xor64(x, Shr64(y, 2 * n));
    forall i | 0 <= i < 64 ensures Bit(z, i) == Bit(v, i) {
      BitXor64(x, Shr64(y, 2 * n), i);
      BitShr64(y, 2 * n, i);
      BitXor64(y, Shr64(y, n), i);
      BitShr64(y, n, i);
      XorShiftBit64(v, n, i);
      XorShiftBit64(v, n, i + n);
      XorShiftBit64(v, n, i + 2 * n);
      High64(v, i + 3 * n);
    }
    Same64(z, v);
  }

  /** Multiplication by a word is undone by its inverse modulo 2^64. */
  lemma UnMul64(h: u64, p: int, q: int)
    requires p * q % TWO64 == 1
    ensures Mul64(Mul64(h, p), q) == h
  {
    UnMul(h, p, q, TWO64);
  }

  lemma UnMul(h: int, p: int, q: int, m: int)
    requires 0 <= h < m && m > 1 && p * q % m == 1
    ensures (h * p % m) * q % m == h
  {
    var a, r, b := h * p / m, h * p % m, p * q / m;
    assert h * p == a * m + r && p * q == b * m + 1;
    Associate(h, p, q, a, r, b, m);
    DivModUnique(r * q, m, h * b - a * q, h);
  }

  lemma Associate(h: int, p: int, q: int, a: int, r: int, b: int, m: int)
    requires h * p == a * m + r && p * q == b * m + 1
    ensures r * q == (h * b - a * q) * m + h
  {
    assert (h * p) * q == h * (p * q);
    assert (a * m + r) * q == (a * q) * m + r * q;
    assert h * (b * m + 1) == (h * b) * m + h;
    assert (h * b - a * q) * m == (h * b) * m - (a * q) * m;
  }

  // ---------------------------------------------------------------- sums of rotations

  /** `h ^ rotl(h, m) ^ rotl(h, n)` */
  function Spread(h: u64, m: nat, n: nat): u64
    requires m <= 64 && n <= 64
  {
    Xor64(h, Xor64(Rotl64(h, m), Rotl64(h, n)))
  }

  /** Bit `i` of `h`, counted around the word. */
  function Around(h: u64, i: int): nat { Bit(h, i % 64) }

  lemma BitSpread(h: u64, m: nat, n: nat, i: nat)
    requires m <= 64 && n <= 64 && i < 64
    ensures Bit(Spread(h, m, n), i) == (Around(h, i) + Around(h, i - m) + Around(h, i - n)) % 2
  {
    hide Bit, Xor64, Rotl64;
    BitXor64(h, Xor64(Rotl64(h, m), Rotl64(h, n)), i);
    BitXor64(Rotl64(h, m), Rotl64(h, n), i);
    BitRotl64(h, m, i);
    BitRotl64(h, n, i);
    AroundIs(h, i, 0);
    AroundIs(h, i, m);
    AroundIs(h, i, n);
  }

  lemma AroundIs(h: u64, i: nat, m: nat)
    requires i < 64 && m <= 64
    ensures Around(h, i - m) == Bit(h, if i >= m then i - m else i + 64 - m)
  {
    hide Bit;
    if i >= m {
      DivModUnique(i - m, 64, 0, i - m);
    } else {
      DivModUnique(i - m, 64, -1, i + 64 - m);
    }
  }

  lemma AroundSpread(h: u64, m: nat, n: nat, i: int)
    requires m <= 64 && n <= 64
    ensures Around(Spread(h, m, n), i) == (Around(h, i) + Around(h, i - m) + Around(h, i - n)) % 2
  {
    hide Bit, Spread;
    var r, q := i % 64, i / 64;
    BitSpread(h, m, n, r);
    AroundShift(h, r, q);
    AroundShift(h, r - m, q);
    AroundShift(h, r - n, q);
    assert i == r + 64 * q;
  }

  lemma AroundShift(h: u64, i: int, q: int)
    ensures Around(h, i + 64 * q) == Around(h, i)
  {
    hide Bit;
    DivModUnique(i + 64 * q, 64, i / 64 + q, i % 64);
  }

  /** Doing it twice doubles the rotations: the mixed terms cancel. */
  lemma SpreadTwice(h: u64, m: nat, n: nat, m': nat, n': nat)
    requires m <= 64 && n <= 64
    requires m' == 2 * m % 64 && n' == 2 * n % 64
    ensures Spread(Spread(h, m, n), m, n) == Spread(h, m', n')
  {
    hide Bit, Spread, Around;
    var s := Spread(h, m, n);
    forall i | 0 <= i < 64 ensures Bit(Spread(s, m, n), i) == Bit(Spread(h, m', n'), i) {
      BitSpread(s, m, n, i);
      AroundSpread(h, m, n, i);
      AroundSpread(h, m, n, i - m);
      AroundSpread(h, m, n, i - n);
      BitSpread(h, m', n', i);
      AroundShift(h, i - 2 * m, 2 * m / 64);
      AroundShift(h, i - 2 * n, 2 * n / 64);
      MixedCancel(Around(h, i), Around(h, i - m), Around(h, i - n), Around(h, i - m - n),
                  Around(h, i - m'), Around(h, i - n'));
    }
    Same64(Spread(s, m, n), Spread(h, m', n'));
  }

  lemma MixedCancel(x: int, y: int, z: int, u: int, v: int, w: int)
    ensures ((x + y + z) % 2 + (y + v + u) % 2 + (z + u + w) % 2) % 2 == (x + v + w) % 2
  {
    SumOfThree(x + y + z, y + v + u, z + u + w);
    EvenPart(x + v + w, y + z + u);
  }

  lemma SumOfThree(p: int, q: int, r: int)
    ensures (p % 2 + q % 2 + r % 2) % 2 == (p + q + r) % 2
  {
  }

  lemma EvenPart(p: int, k: int)
    ensures (p + 2 * k) % 2 == p % 2
  {
  }

  lemma SpreadZero(h: u64)
    ensures Spread(h, 0, 0) == h
  {
    hide Bit, Spread;
    forall i | 0 <= i < 64 ensures Bit(Spread(h, 0, 0), i) == Bit(h, i) {
      BitSpread(h, 0, 0, i);
      AroundIs(h, i, 0);
    }
    Same64(Spread(h, 0, 0), h);
  }

  // ---------------------------------------------------------------- 32-bit words

  lemma Same32(a: u32, b: u32)
    requires forall i :: 0 <= i < 32 ==> Bit(a, i) == Bit(b, i)
    ensures a == b
  {
    hide Pow2, Bit;
    Pow2Values();
    SameBits(a, b, 32);
  }

  lemma High32(a: u32, i: nat)
    requires i >= 32
    ensures Bit(a, i) == 0
  {
    hide Pow2, Bit;
    Pow2Values();
    BitHigh(a, 32, i);
  }

  lemma BitXor32(a: u32, b: u32, i: nat)
    ensures Bit(Xor32(a, b), i) == (Bit(a, i) + Bit(b, i)) % 2
  {
    BitXor(a, b, i);
  }

  lemma BitShr32(a: u32, n: nat, i: nat)
    ensures Bit(Shr32(a, n), i) == Bit(a, i + n)
  {
    hide Bit, Pow2;
    BitShr(a, n, i);
  }

  lemma BitRotl32(a: u32, n: nat, i: nat)
    requires i < 32 && n <= 32
    ensures Bit(Rotl32(a, n), i) == Bit(a, if i >= n then i - n else i + 32 - n)
  {
    hide Pow2, Bit, Or;
    Pow2Values();
    BitOr(Shl32(a, n), Shr32(a, 32 - n), i);
    BitMod(a * Pow2(n), 32, i);
    BitShl(a, n, i);
    BitShr(a, 32 - n, i);
    if i >= n { High32(a, i + 32 - n); }
  }

  lemma RotateBack32(a: u32, n: nat)
    requires n <= 32
    ensures Rotl32(Rotl32(a, n), 32 - n) == a
  {
    hide Bit, Rotl32;
    var r := Rotl32(a, n);
    forall i | 0 <= i < 32 ensures Bit(Rotl32(r, 32 - n), i) == Bit(a, i) {
      BitRotl32(r, 32 - n, i);
      BitRotl32(a, n, if i >= 32 - n then i - (32 - n) else i + n);
    }
    Same32(Rotl32(r, 32 - n), a);
  }

  lemma XorShiftBit32(v: u32, n: nat, i: nat)
    ensures Bit(Xor32(v, Shr32(v, n)), i) == (Bit(v, i) + Bit(v, i + n)) % 2
  {
    hide Bit, Xor32, Shr32;
    BitXor32(v, Shr32(v, n), i);
    BitShr32(v, n, i);
  }

  lemma UnXorShift32(v: u32, n: nat)
    requires n >= 11
    ensures
      var y := Xor32(v, Shr32(v, n));
      Xor32(Xor32(y, Shr32(y, n)), Shr32(y, 2 * n)) == v
  {
    hide Bit, Xor32, Shr32;
    var y := Xor32(v, Shr32(v, n));
    var x := Xor32(y, Shr32(y, n));
    var z := Xor32(x, Shr32(y, 2 * n));
    forall i | 0 <= i < 32 ensures Bit(z, i) == Bit(v, i) {
      BitXor32(x, Shr32(y, 2 * n), i);
      BitShr32(y, 2 * n, i);
      BitXor32(y, Shr32(y, n), i);
      BitShr32(y, n, i);
      XorShiftBit32(v, n, i);
      XorShiftBit32(v, n, i + n);
      XorShiftBit32(v, n, i + 2 * n);
      High32(v, i + 3 * n);
    }
    Same32(z, v);
  }

  lemma UnMul32(h: u32, p: int, q: int)
    requires p * q % TWO32 == 1
    ensures Mul32(Mul32(h, p), q) == h
  {
    UnMul(h, p, q, TWO32);
  }
}
