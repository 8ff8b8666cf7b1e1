/** Integer facts about quotients, remainders and products, kept apart from everything else. */
module Arith {
  const TWO32: int := 0x1_0000_0000
  const TWO64: int := 0x1_0000_0000_0000_0000

  lemma DivModUnique(a: int, d: int, q: int, r: int)
    requires d > 0 && 0 <= r < d && a == q * d + r
    ensures a / d == q && a % d == r
  {
    assert a == (a / d) * d + a % d;
    QuotientUnique(d, q, r, a / d, a % d);
  }

  lemma QuotientUnique(d: int, q: int, r: int, q': int, r': int)
    requires d > 0 && 0 <= r < d && 0 <= r' < d
    requires q * d + r == q' * d + r'
    ensures q == q' && r == r'
  {
    assert (q' - q) * d == r - r';
    if q' > q {
      MulAtLeast(q' - q, d);
    } else if q' < q {
      assert (q - q') * d == -((q' - q) * d);
      MulAtLeast(q - q', d);
    }
  }

  lemma MulAtLeast(k: int, d: int)
    requires k >= 1 && d >= 0
    ensures k * d >= d
  {
    assert k * d == (k - 1) * d + d;
  }

  lemma ModHalves(a: nat, p: nat)
    requires p > 0
    ensures a % (2 * p) == 2 * ((a / 2) % p) + a % 2
  {
    var q := (a / 2) / p;
    var r := 2 * ((a / 2) % p) + a % 2;
    assert a / 2 == q * p + (a / 2) % p;
    assert a == q * (2 * p) + r by {
      assert a == 2 * (a / 2) + a % 2;
      assert 2 * (q * p) == q * (2 * p);
    }
    DivModUnique(a, 2 * p, q, r);
  }

  lemma DivHalves(a: nat, p: nat)
    requires p > 0
    ensures (a / 2) / p == a / (2 * p)
  {
    ModHalves(a, p);
    var q := (a / 2) / p;
    var r := 2 * ((a / 2) % p) + a % 2;
    assert a / 2 == q * p + (a / 2) % p;
    assert a == q * (2 * p) + r by {
      assert a == 2 * (a / 2) + a % 2;
      assert 2 * (q * p) == q * (2 * p);
    }
    DivModUnique(a, 2 * p, q, r);
  }

  lemma DivBound(a: nat, d: nat)
    requires d > 0
    ensures 0 <= a / d <= a
  {
    var q := a / d;
    assert a == q * d + a % d;
    if q > 0 {
      MulAtLeast(d, q);
      assert d * q == q * d;
    }
  }

  lemma ProductBound(a: int, b: int, x: int, y: int)
    requires 0 <= a <= x && 0 <= b <= y
    ensures 0 <= a * b <= x * y
  {
    assert a * b <= a * y;
    assert a * y <= x * y;
  }

  lemma Recombine(loLo: int, hiLo: int, loHi: int, hiHi: int, cross: int, upper: int, lower: int)
    requires cross == loLo / TWO32 + hiLo % TWO32 + loHi
    requires upper == hiLo / TWO32 + cross / TWO32 + hiHi
    requires lower == (cross % TWO32) * TWO32 + loLo % TWO32
    ensures upper * TWO64 + lower == hiHi * TWO64 + (hiLo + loHi) * TWO32 + loLo
  {
  }

  lemma Schoolbook(lh: int, ll: int, rh: int, rl: int)
    ensures (lh * TWO32 + ll) * (rh * TWO32 + rl)
            == lh * rh * TWO64 + (lh * rl + ll * rh) * TWO32 + ll * rl
  {
    assert (lh * TWO32 + ll) * (rh * TWO32 + rl)
        == lh * TWO32 * (rh * TWO32) + lh * TWO32 * rl + ll * (rh * TWO32) + ll * rl;
  }

  lemma DroppedHighHalf(x: int)
    ensures (x * TWO32) % TWO64 == (x % TWO32) * TWO32
  {
  }

  lemma SumOfReduced(l: int, h: int)
    ensures (l % TWO64 + ((h % TWO64) * TWO32) % TWO64) % TWO64 == (h * TWO32 + l) % TWO64
  {
  }

  lemma DivTwice(v: nat, a: nat, b: nat)
    requires a > 0 && b > 0
    ensures a * b > 0 && (v / a) / b == v / (a * b)
  {
    DivBound(v, a);
    DivTwiceParts(v, a, b, v / a, v % a, (v / a) / b, (v / a) % b);
  }

  lemma DivTwiceParts(v: int, a: int, b: int, q1: int, r1: int, q2: int, r2: int)
    requires a > 0 && b > 0 && 0 <= r1 < a && 0 <= r2 < b
    requires v == q1 * a + r1 && q1 == q2 * b + r2
    ensures a * b > 0 && v / (a * b) == q2
  {
    var d := a * b;
    var r := r2 * a + r1;
    RemainderRange(a, b, r1, r2);
    assert q1 * a == q2 * b * a + r2 * a;
    assert q2 * b * a == q2 * d;
    DivModUnique(v, d, q2, r);
  }

  lemma RemainderRange(a: int, b: int, r1: int, r2: int)
    requires a > 0 && b > 0 && 0 <= r1 < a && 0 <= r2 < b
    ensures 0 <= r2 * a + r1 < a * b
  {
    MulAtLeast(b - r2, a);
    assert a * b == (b - r2) * a + r2 * a;
    if r2 > 0 {
      MulAtLeast(r2, a);
    }
  }

  lemma Up56(x: int)
    ensures ((x * 0x100_0000_0000_0000) % TWO64 / 0x100_0000_0000_0000) % 0x100 == (x / 1) % 0x100
  {
    DivModUnique(x * 0x100_0000_0000_0000, TWO64, x / 0x100, (x % 0x100) * 0x100_0000_0000_0000);
    DivModUnique((x % 0x100) * 0x100_0000_0000_0000, 0x100_0000_0000_0000, x % 0x100, 0);
  }

  /** A word cut into three fields, of which the lowest is dropped by the division and the highest by
      the remainder. */
  lemma MiddleField(x: int, low: int, size: int, q: int, r: int, l: int)
    requires 0 <= l < low && 0 <= r < size && size % 0x100 == 0 && x / low == q * size + r
    requires low > 0 && x == (q * size + r) * low + l
    ensures r % 0x100 == (x / low) % 0x100
  {
    var m := size / 0x100;
    assert size == m * 0x100;
    assert q * size == (q * m) * 0x100;
    DivModUnique(q * size + r, 0x100, q * m + r / 0x100, r % 0x100);
  }

  lemma Up40(x: int)
    ensures ((x * 0x100_0000_0000) % TWO64 / 0x1_0000_0000_0000) % 0x100 == (x / 0x100) % 0x100
  {
    var h, l := x / 0x100, x % 0x100;
    var q, r := h / 0x1_0000, h % 0x1_0000;
    var kept := r * 0x1_0000_0000_0000 + l * 0x100_0000_0000;
    DivModUnique(x * 0x100_0000_0000, TWO64, q, kept);
    DivModUnique(kept, 0x1_0000_0000_0000, r, l * 0x100_0000_0000);
    MiddleField(x, 0x100, 0x1_0000, q, r, l);
  }

  lemma Up24(x: int)
    ensures ((x * 0x100_0000) % TWO64 / 0x100_0000_0000) % 0x100 == (x / 0x1_0000) % 0x100
  {
    var h, l := x / 0x1_0000, x % 0x1_0000;
    var q, r := h / 0x100_0000, h % 0x100_0000;
    var kept := r * 0x100_0000_0000 + l * 0x100_0000;
    DivModUnique(x * 0x100_0000, TWO64, q, kept);
    DivModUnique(kept, 0x100_0000_0000, r, l * 0x100_0000);
    MiddleField(x, 0x1_0000, 0x100_0000, q, r, l);
  }

  lemma Up8(x: int)
    ensures ((x * 0x100) % TWO64 / 0x1_0000_0000) % 0x100 == (x / 0x100_0000) % 0x100
  {
    var h, l := x / 0x100_0000, x % 0x100_0000;
    var q, r := h / 0x1_0000_0000, h % 0x1_0000_0000;
    var kept := r * 0x1_0000_0000 + l * 0x100;
    DivModUnique(x * 0x100, TWO64, q, kept);
    DivModUnique(kept, 0x1_0000_0000, r, l * 0x100);
    MiddleField(x, 0x100_0000, 0x1_0000_0000, q, r, l);
  }

  lemma Up24In32(x: int)
    ensures ((x * 0x100_0000) % TWO32 / 0x100_0000) % 0x100 == (x / 1) % 0x100
  {
    DivModUnique(x * 0x100_0000, TWO32, x / 0x100, (x % 0x100) * 0x100_0000);
    DivModUnique((x % 0x100) * 0x100_0000, 0x100_0000, x % 0x100, 0);
  }

  lemma Up8In32(x: int)
    ensures ((x * 0x100) % TWO32 / 0x1_0000) % 0x100 == (x / 0x100) % 0x100
  {
    var h, l := x / 0x100, x % 0x100;
    var q, r := h / 0x1_0000, h % 0x1_0000;
    var kept := r * 0x1_0000 + l * 0x100;
    DivModUnique(x * 0x100, TWO32, q, kept);
    DivModUnique(kept, 0x1_0000, r, l * 0x100);
    MiddleField(x, 0x100, 0x1_0000, q, r, l);
  }

  // ---------------------------------------------------------------- wrap-around sums

  lemma WrapSum64(m: int, n: int)
    ensures (m % TWO64 + n) % TWO64 == (m + n) % TWO64
  {
  }

  lemma WrapSum32(m: int, n: int)
    ensures (m % TWO32 + n) % TWO32 == (m + n) % TWO32
  {
  }

  lemma WrapSum16(m: int, n: int)
    ensures (m % 0x1_0000 + n) % 0x1_0000 == (m + n) % 0x1_0000
  {
  }

  /** A sum that wraps around after every term wraps around once. */
  lemma WrapSum4(x: int, a: int, b: int, c: int, d: int)
    ensures ((((x + a) % TWO64 + b) % TWO64 + c) % TWO64 + d) % TWO64 == (x + a + b + c + d) % TWO64
  {
    WrapSum64(x + a, b);
    WrapSum64(x + a + b, c);
    WrapSum64(x + a + b + c, d);
  }

  /** Partial products of 32-bit halves leave room for the two carried halves. */
  lemma NoCarryOut(loLo: int, hiLo: int, loHi: int, hiHi: int, cross: int)
    requires 0 <= loLo <= (TWO32 - 1) * (TWO32 - 1) && 0 <= hiLo <= (TWO32 - 1) * (TWO32 - 1)
    requires 0 <= loHi <= (TWO32 - 1) * (TWO32 - 1) && 0 <= hiHi <= (TWO32 - 1) * (TWO32 - 1)
    requires cross == loLo / TWO32 + hiLo % TWO32 + loHi
    ensures 0 <= loLo / TWO32 + hiLo % TWO32 < TWO64 && 0 <= cross < TWO64
    ensures 0 <= hiLo / TWO32 + cross / TWO32 < TWO64 && 0 <= hiLo / TWO32 + cross / TWO32 + hiHi < TWO64
  {
  }

  // ---------------------------------------------------------------- blocks of stripes

  /** Blocks times stripes per block, plus the stripes of the last block, are all the stripes. */
  lemma StripeCount(last: nat, perBlock: nat, blocks: int, stripes: int)
    requires perBlock > 0 && blocks == last / (64 * perBlock) && stripes == blocks * perBlock
    ensures blocks >= 0 && stripes >= 0
    ensures (64 * perBlock) * blocks == 64 * stripes == blocks * (64 * perBlock)
    ensures 0 <= last - 64 * stripes < 64 * perBlock
    ensures last / 64 == stripes + (last - 64 * stripes) / 64
    ensures (last - 64 * stripes) / 64 < perBlock
  {
    var blockLen := 64 * perBlock;
    DivBound(last, blockLen);
    assert last == blockLen * blocks + last % blockLen;
    assert blockLen * blocks == 64 * (blocks * perBlock);
    assert blocks * perBlock >= 0;
  }

  /** Taking `k` stripes of 64 bytes takes `k` from the number of whole stripes. */
  lemma StripesLeft(last: nat, k: nat)
    requires k <= last / 64
    ensures last - 64 * k >= 0 && (last - 64 * k) / 64 == last / 64 - k
  {
    DivModUnique(last - 64 * k, 64, last / 64 - k, last % 64);
  }

  lemma EnoughStripes(last: nat, n: nat)
    requires last >= n * 64
    ensures last / 64 >= n
  {
  }

  /** The next block still lies inside the input. */
  lemma BlockFits(n: nat, blocks: nat, perBlock: nat, done: int, stripes: int)
    requires n < blocks && done == n * perBlock && stripes == blocks * perBlock
    ensures n * (64 * perBlock) == 64 * done
    ensures (n + 1) * perBlock == done + perBlock <= stripes
  {
    MulAtLeast(blocks - n, perBlock);
    Distribute(blocks - n, n, perBlock);
    Distribute(n, 1, perBlock);
    Rescale(n, perBlock);
  }

  lemma FactorBound(q: int, m: int, c: int)
    requires c > 0 && q * c < c * m
    ensures q < m
  {
    if q >= m {
      Distribute(q - m, m, c);
    }
  }

  lemma Distribute(a: int, b: int, c: int)
    ensures (a + b) * c == a * c + b * c
  {
  }

  lemma Rescale(n: int, p: int)
    ensures n * (64 * p) == 64 * (n * p)
  {
  }
}
