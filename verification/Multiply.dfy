/** The 64x64 to 128 bit multiplication behind every XXH3 mixing step: the compiler's 128-bit
    product, and the portable schoolbook form that works in 64-bit words only. */
module Multiply {
  import opened Arith
  import opened Words

  datatype Product = Product(low: u64, high: u64)

  /** The two halves of the exact 128-bit product. */
  function WideProduct(lhs: u64, rhs: u64): Product
  {
    HalvesInRange(lhs, rhs);
    Product((lhs * rhs) % TWO64, (lhs * rhs) / TWO64)
  }

  lemma HalvesInRange(lhs: u64, rhs: u64)
    ensures 0 <= lhs * rhs < TWO64 * TWO64
    ensures 0 <= (lhs * rhs) / TWO64 < TWO64
  {
    ProductBound(lhs, rhs, TWO64 - 1, TWO64 - 1);
  }

  /** The partial products and sums of the portable multiplication, each computed with
      64-bit wrap-around as the code does. */
  datatype Partials = Partials(loLo: u64, hiLo: u64, loHi: u64, hiHi: u64, cross: u64, upper: u64, lower: u64)

  function PortableSteps(lhs: u64, rhs: u64): Partials
  {
    var loLo := Mul64(lhs % TWO32, rhs % TWO32);
    var hiLo := Mul64(lhs / TWO32, rhs % TWO32);
    var loHi := Mul64(lhs % TWO32, rhs / TWO32);
    var hiHi := Mul64(lhs / TWO32, rhs / TWO32);
    var cross := Add64(Add64(loLo / TWO32, hiLo % TWO32), loHi);
    var upper := Add64(Add64(hiLo / TWO32, cross / TWO32), hiHi);
    var lower := Or64((cross * TWO32) % TWO64, loLo % TWO32);
    Partials(loLo, hiLo, loHi, hiHi, cross, upper, lower)
  }

  function PortableProduct(lhs: u64, rhs: u64): Product
  {
    var p := PortableSteps(lhs, rhs);
    Product(p.lower, p.upper)
  }

  /** No partial product and no sum of the portable form leaves 64 bits. */
  lemma PortableNeverOverflows(lhs: u64, rhs: u64)
    ensures
      var p := PortableSteps(lhs, rhs);
      && p.loLo == (lhs % TWO32) * (rhs % TWO32)
      && p.hiLo == (lhs / TWO32) * (rhs % TWO32)
      && p.loHi == (lhs % TWO32) * (rhs / TWO32)
      && p.hiHi == (lhs / TWO32) * (rhs / TWO32)
      && p.cross == p.loLo / TWO32 + p.hiLo % TWO32 + p.loHi
      && p.upper == p.hiLo / TWO32 + p.cross / TWO32 + p.hiHi
  {
    HalfProduct(lhs % TWO32, rhs % TWO32);
    HalfProduct(lhs / TWO32, rhs % TWO32);
    HalfProduct(lhs % TWO32, rhs / TWO32);
    HalfProduct(lhs / TWO32, rhs / TWO32);
    var p := PortableSteps(lhs, rhs);
    var cross := p.loLo / TWO32 + p.hiLo % TWO32 + p.loHi;
    NoCarryOut(p.loLo, p.hiLo, p.loHi, p.hiHi, cross);
    SmallSums(p.loLo / TWO32, p.hiLo % TWO32, p.loHi);
    SmallSums(p.hiLo / TWO32, p.cross / TWO32, p.hiHi);
  }

  lemma SmallSums(a: int, b: int, c: int)
    requires 0 <= a + b < TWO64 && 0 <= a + b + c < TWO64
    ensures Add64(Add64(a, b), c) == a + b + c
  {
  }

  /** Halves of words multiply without overflow, and leave room for two more halves. */
  lemma HalfProduct(a: u32, b: u32)
    ensures Mul64(a, b) == a * b
    ensures 0 <= a * b <= (TWO32 - 1) * (TWO32 - 1)
  {
    ProductBound(a, b, TWO32 - 1, TWO32 - 1);
  }

  /** The portable multiplication is exact: its two words are the 128-bit product. */
  lemma PortableIsExact(lhs: u64, rhs: u64)
    ensures
      var p := PortableProduct(lhs, rhs);
      p.high * TWO64 + p.low == lhs * rhs
  {
    var p := PortableSteps(lhs, rhs);
    PortableNeverOverflows(lhs, rhs);
    LowerWord(p.cross, p.loLo);
    Recombine(p.loLo, p.hiLo, p.loHi, p.hiHi, p.cross, p.upper, p.lower);
    Schoolbook(lhs / TWO32, lhs % TWO32, rhs / TWO32, rhs % TWO32);
  }

  lemma LowerWord(cross: u64, loLo: u64)
    ensures Or64((cross * TWO32) % TWO64, loLo % TWO32) == (cross % TWO32) * TWO32 + loLo % TWO32
  {
    DroppedHighHalf(cross);
    Pow2Values();
    var shifted := (cross % TWO32) * TWO32;
    assert Or(shifted, loLo % TWO32) == shifted + loLo % TWO32 by {
      OrDisjoint(cross % TWO32, loLo % TWO32, 32);
    }
  }

  /** Hence both multiplications return the same two words. */
  lemma PortableIsWide(lhs: u64, rhs: u64)
    ensures PortableProduct(lhs, rhs) == WideProduct(lhs, rhs)
  {
    PortableIsExact(lhs, rhs);
    var p := PortableProduct(lhs, rhs);
    DivModUnique(lhs * rhs, TWO64, p.high, p.low);
  }

  function MulFold64(lhs: u64, rhs: u64): u64
  {
    var p := WideProduct(lhs, rhs);
    Xor64(p.low, p.high)
  }
}
