/** The XXH3 inner loop. `Accumulate512` and `Scramble` give every lane of the result in closed
    form; the scalar loop, which adds across lanes in place, and the SSE2 and AVX2 register forms
    are methods on the accumulator array, each proved to compute exactly these lanes. */
module Xxh3Kernel {
  import opened Arith
  import opened Words

  const PRIME32_1: u32 := 0x9E3779B1

  type Acc = s: seq<u64> | |s| == 8 witness [0, 0, 0, 0, 0, 0, 0, 0]
  type Bytes64 = s: seq<u8> | |s| == 64 witness seq(64, _ => 0)

  // ---------------------------------------------------------------- closed form

  /** `lane ^ 1` */
  function Neighbour(lane: nat): nat
    requires lane < 8
  {
    if lane % 2 == 0 then lane + 1 else lane - 1
  }

  function DataLane(input: Bytes64, lane: nat): u64
    requires lane < 8
  {
    ReadLE64(input, 8 * lane)
  }

  function KeyProduct(input: Bytes64, secret: Bytes64, lane: nat): u64
    requires lane < 8
  {
    FoldHalves(Xor64(DataLane(input, lane), ReadLE64(secret, 8 * lane)))
  }

  /** The low half of a word times its high half. */
  function FoldHalves(k: u64): u64 { Mul64(k % TWO32, k / TWO32) }

  function AccumulateLane(a: u64, neighbourData: u64, product: u64): u64
  {
    Add64(Add64(a, neighbourData), product)
  }

  function Accumulate512(acc: Acc, input: Bytes64, secret: Bytes64): Acc
  {
    seq(8, i requires 0 <= i < 8 =>
      AccumulateLane(acc[i], DataLane(input, Neighbour(i)), KeyProduct(input, secret, i)))
  }

  function ScrambleLane(a: u64, key: u64): u64
  {
    Mul64(Xor64(Xor64(a, Shr64(a, 47)), key), PRIME32_1)
  }

  function Scramble(acc: Acc, secret: Bytes64): Acc
  {
    seq(8, i requires 0 <= i < 8 => ScrambleLane(acc[i], ReadLE64(secret, 8 * i)))
  }

  // ---------------------------------------------------------------- scalar loops

  /** What one lane holds once the scalar loop has run its first `done` rounds. */
  ghost function PartialLane(a: u64, neighbourData: u64, product: u64, lane: nat, done: nat): u64
    requires lane < 8
  {
    var ownDone, neighbourDone := lane < done, Neighbour(lane) < done;
    if ownDone && neighbourDone then AccumulateLane(a, neighbourData, product)
    else if ownDone then Add64(a, product)
    else if neighbourDone then Add64(a, neighbourData)
    else a
  }

  lemma AddSwap(a: u64, b: u64, c: u64)
    ensures Add64(Add64(a, b), c) == Add64(Add64(a, c), b)
  {
    var x: int, y: int, z: int := a, b, c;
    WrapSum64(x + y, z);
    WrapSum64(x + z, y);
  }

  method AccumulateScalar(acc: array<u64>, input: Bytes64, secret: Bytes64)
    requires acc.Length == 8
    modifies acc
    ensures acc[..] == Accumulate512(old(acc[..]), input, secret)
  {
    ghost var start: Acc := acc[..];
    for i := 0 to 8
      invariant forall j :: 0 <= j < 8 ==>
        acc[j] == PartialLane(start[j], DataLane(input, Neighbour(j)), KeyProduct(input, secret, j), j, i)
    {
      ScalarRound(acc, input, secret, i, start);
    }
  }

  method ScalarRound(acc: array<u64>, input: Bytes64, secret: Bytes64, lane: nat, ghost start: Acc)
    requires acc.Length == 8 && lane < 8
    requires forall j :: 0 <= j < 8 ==>
      acc[j] == PartialLane(start[j], DataLane(input, Neighbour(j)), KeyProduct(input, secret, j), j, lane)
    modifies acc
    ensures forall j :: 0 <= j < 8 ==>
      acc[j] == PartialLane(start[j], DataLane(input, Neighbour(j)), KeyProduct(input, secret, j), j, lane + 1)
  {
    hide DataLane, KeyProduct, Add64;
    var dataVal := DataLane(input, lane);
    var n := Neighbour(lane);
    acc[n] := Add64(acc[n], dataVal);
    acc[lane] := Add64(acc[lane], KeyProduct(input, secret, lane));
    AddSwap(start[n], DataLane(input, lane), KeyProduct(input, secret, n));
    AddSwap(start[lane], DataLane(input, n), KeyProduct(input, secret, lane));
  }

  method ScrambleScalar(acc: array<u64>, secret: Bytes64)
    requires acc.Length == 8
    modifies acc
    ensures acc[..] == Scramble(old(acc[..]), secret)
  {
    ghost var start: Acc := acc[..];
    for i := 0 to 8
      invariant forall j :: 0 <= j < 8 ==>
        acc[j] == if j < i then ScrambleLane(start[j], ReadLE64(secret, 8 * j)) else start[j]
    {
      acc[i] := ScrambleLane(acc[i], ReadLE64(secret, 8 * i));
    }
  }

  // ---------------------------------------------------------------- 128-bit registers

  /** An SSE2 register as two 64-bit lanes; the 32-bit view is `Dword`. */
  datatype Reg128 = Reg128(lo: u64, hi: u64)
  {
    function Dword(i: nat): u32
      requires i < 4
    {
      var lane := if i < 2 then lo else hi;
      if i % 2 == 0 then lane % TWO32 else lane / TWO32
    }
  }

  function FromDwords(d0: u32, d1: u32, d2: u32, d3: u32): Reg128
  {
    Reg128(d0 + d1 * TWO32, d2 + d3 * TWO32)
  }

  /** `_mm_shuffle_epi32` with selector `_MM_SHUFFLE(z, y, x, w)`. */
  function ShuffleDwords(v: Reg128, z: nat, y: nat, x: nat, w: nat): Reg128
    requires z < 4 && y < 4 && x < 4 && w < 4
  {
    FromDwords(v.Dword(w), v.Dword(x), v.Dword(y), v.Dword(z))
  }

  function XorReg(a: Reg128, b: Reg128): Reg128 { Reg128(Xor64(a.lo, b.lo), Xor64(a.hi, b.hi)) }

  function AddLanes(a: Reg128, b: Reg128): Reg128 { Reg128(Add64(a.lo, b.lo), Add64(a.hi, b.hi)) }

  /** `_mm_mul_epu32`: the low 32 bits of each lane, multiplied to 64 bits. */
  function MulLowHalves(a: Reg128, b: Reg128): Reg128
  {
    Reg128(Mul64(a.lo % TWO32, b.lo % TWO32), Mul64(a.hi % TWO32, b.hi % TWO32))
  }

  function ShiftRight(a: Reg128, n: nat): Reg128 { Reg128(Shr64(a.lo, n), Shr64(a.hi, n)) }

  function ShiftLeft(a: Reg128, n: nat): Reg128 { Reg128(Shl64(a.lo, n), Shl64(a.hi, n)) }

  function LoadReg(bytes: Bytes64, i: nat): Reg128
    requires i < 4
  {
    Reg128(ReadLE64(bytes, 16 * i), ReadLE64(bytes, 16 * i + 8))
  }

  /** One 128-bit step of `accumulate_512`. */
  function AccumulateReg(acc: Reg128, data: Reg128, key: Reg128): Reg128
  {
    var dataKey := XorReg(data, key);
    var dataKeyLo := ShuffleDwords(dataKey, 0, 3, 0, 1);
    var product := MulLowHalves(dataKey, dataKeyLo);
    var dataSwap := ShuffleDwords(data, 1, 0, 3, 2);
    AddLanes(product, AddLanes(acc, dataSwap))
  }

  /** One 128-bit step of `scrambleAcc`. */
  function ScrambleReg(acc: Reg128, key: Reg128): Reg128
  {
    var dataKey := XorReg(XorReg(acc, ShiftRight(acc, 47)), key);
    var prime := FromDwords(PRIME32_1, PRIME32_1, PRIME32_1, PRIME32_1);
    var dataKeyHi := ShuffleDwords(dataKey, 0, 3, 0, 1);
    AddLanes(MulLowHalves(dataKey, prime), ShiftLeft(MulLowHalves(dataKeyHi, prime), 32))
  }

  lemma AccumulateRegLanes(acc: Reg128, data: Reg128, key: Reg128)
    ensures AccumulateReg(acc, data, key) ==
            Reg128(AccumulateLane(acc.lo, data.hi, FoldHalves(Xor64(data.lo, key.lo))),
                   AccumulateLane(acc.hi, data.lo, FoldHalves(Xor64(data.hi, key.hi))))
  {
    hide Xor64, Mul64;
    var dataKey := XorReg(data, key);
    var s := ShuffleDwords(dataKey, 0, 3, 0, 1);
    assert s.lo % TWO32 == dataKey.lo / TWO32 && s.hi % TWO32 == dataKey.hi / TWO32;
    assert ShuffleDwords(data, 1, 0, 3, 2) == Reg128(data.hi, data.lo);
  }

  /** A 64-bit product by a 32-bit constant, from the products of the two halves. */
  lemma SplitProduct(x: u64, p: u32)
    ensures Add64(Mul64(x % TWO32, p), Shl64(Mul64(x / TWO32, p), 32)) == Mul64(x, p)
  {
    var lo, hi := x % TWO32, x / TWO32;
    var l, h := lo * p, hi * p;
    assert x * p == h * TWO32 + l by {
      assert x == hi * TWO32 + lo;
      assert (hi * TWO32 + lo) * p == hi * TWO32 * p + lo * p;
      assert hi * TWO32 * p == hi * p * TWO32;
    }
    Pow2Values();
    SumOfReduced(l, h);
  }

  lemma ScrambleRegLanes(acc: Reg128, key: Reg128)
    ensures ScrambleReg(acc, key) == Reg128(ScrambleLane(acc.lo, key.lo), ScrambleLane(acc.hi, key.hi))
  {
    hide Xor64, Shr64, Mul64, Add64, Shl64;
    var dataKey := XorReg(XorReg(acc, ShiftRight(acc, 47)), key);
    var s := ShuffleDwords(dataKey, 0, 3, 0, 1);
    assert s.lo % TWO32 == dataKey.lo / TWO32 && s.hi % TWO32 == dataKey.hi / TWO32;
    SplitProduct(dataKey.lo, PRIME32_1);
    SplitProduct(dataKey.hi, PRIME32_1);
  }

  // ---------------------------------------------------------------- SSE2 and AVX2 loops

  /** Lanes below `2 * done` hold their final value, the others are untouched. */
  ghost predicate LanesDone(acc: seq<u64>, start: Acc, final: Acc, done: nat)
  {
    |acc| == 8 && forall j :: 0 <= j < 8 ==> acc[j] == if j < 2 * done then final[j] else start[j]
  }

  method AccumulatePair(acc: array<u64>, input: Bytes64, secret: Bytes64, i: nat, ghost start: Acc)
    requires acc.Length == 8 && i < 4
    requires LanesDone(acc[..], start, Accumulate512(start, input, secret), i)
    modifies acc
    ensures LanesDone(acc[..], start, Accumulate512(start, input, secret), i + 1)
  {
    hide DataLane, AccumulateReg, AccumulateLane, FoldHalves, Xor64, ReadLE64;
    var v := Reg128(acc[2 * i], acc[2 * i + 1]);
    var r := AccumulateReg(v, LoadReg(input, i), LoadReg(secret, i));
    AccumulateRegLanes(v, LoadReg(input, i), LoadReg(secret, i));
    LaneLoads(input, i);
    LaneLoads(secret, i);
    acc[2 * i], acc[2 * i + 1] := r.lo, r.hi;
  }

  lemma LaneLoads(bytes: Bytes64, i: nat)
    requires i < 4
    ensures LoadReg(bytes, i).lo == DataLane(bytes, 2 * i) == ReadLE64(bytes, 8 * (2 * i))
    ensures LoadReg(bytes, i).hi == DataLane(bytes, 2 * i + 1) == ReadLE64(bytes, 8 * (2 * i + 1))
  {
    hide ReadLE64;
    assert 16 * i == 8 * (2 * i) && 16 * i + 8 == 8 * (2 * i + 1);
  }

  method AccumulateSse2(acc: array<u64>, input: Bytes64, secret: Bytes64)
    requires acc.Length == 8
    modifies acc
    ensures acc[..] == Accumulate512(old(acc[..]), input, secret)
  {
    hide Accumulate512;
    ghost var start: Acc := acc[..];
    for i := 0 to 4
      invariant LanesDone(acc[..], start, Accumulate512(start, input, secret), i)
    {
      AccumulatePair(acc, input, secret, i, start);
    }
  }

  /** A 256-bit register is two 128-bit halves; the AVX2 shuffles stay inside each half. */
  method AccumulateAvx2(acc: array<u64>, input: Bytes64, secret: Bytes64)
    requires acc.Length == 8
    modifies acc
    ensures acc[..] == Accumulate512(old(acc[..]), input, secret)
  {
    hide Accumulate512;
    ghost var start: Acc := acc[..];
    for i := 0 to 2
      invariant LanesDone(acc[..], start, Accumulate512(start, input, secret), 2 * i)
    {
      AccumulatePair(acc, input, secret, 2 * i, start);
      AccumulatePair(acc, input, secret, 2 * i + 1, start);
    }
  }

  method ScramblePair(acc: array<u64>, secret: Bytes64, i: nat, ghost start: Acc)
    requires acc.Length == 8 && i < 4
    requires LanesDone(acc[..], start, Scramble(start, secret), i)
    modifies acc
    ensures LanesDone(acc[..], start, Scramble(start, secret), i + 1)
  {
    hide ScrambleReg, ScrambleLane, ReadLE64;
    var v := Reg128(acc[2 * i], acc[2 * i + 1]);
    var r := ScrambleReg(v, LoadReg(secret, i));
    ScrambleRegLanes(v, LoadReg(secret, i));
    LaneLoads(secret, i);
    acc[2 * i], acc[2 * i + 1] := r.lo, r.hi;
  }

  method ScrambleSse2(acc: array<u64>, secret: Bytes64)
    requires acc.Length == 8
    modifies acc
    ensures acc[..] == Scramble(old(acc[..]), secret)
  {
    hide Scramble;
    ghost var start: Acc := acc[..];
    for i := 0 to 4
      invariant LanesDone(acc[..], start, Scramble(start, secret), i)
    {
      ScramblePair(acc, secret, i, start);
    }
  }

  method ScrambleAvx2(acc: array<u64>, secret: Bytes64)
    requires acc.Length == 8
    modifies acc
    ensures acc[..] == Scramble(old(acc[..]), secret)
  {
    hide Scramble;
    ghost var start: Acc := acc[..];
    for i := 0 to 2
      invariant LanesDone(acc[..], start, Scramble(start, secret), 2 * i)
    {
      ScramblePair(acc, secret, 2 * i, start);
      ScramblePair(acc, secret, 2 * i + 1, start);
    }
  }
}
