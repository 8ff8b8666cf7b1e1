/** XXH32: the one-shot loop and the streaming state, both against a stripe-by-stripe fold. */
module Xxh32 {
  import opened Arith
  import opened Words

  const P1: u32 := 0x9E3779B1
  const P2: u32 := 0x85EBCA77
  const P3: u32 := 0xC2B2AE3D
  const P4: u32 := 0x27D4EB2F
  const P5: u32 := 0x165667B1

  type Lanes = s: seq<u32> | |s| == 4 witness [0, 0, 0, 0]

  function Round(acc: u32, input: u32): u32
  {
    Mul32(Rotl32(Add32(acc, Mul32(input, P2)), 13), P1)
  }

  function Avalanche(h: u32): u32
  {
    var h1 := Mul32(Xor32(h, Shr32(h, 15)), P2);
    var h2 := Mul32(Xor32(h1, Shr32(h1, 13)), P3);
    Xor32(h2, Shr32(h2, 16))
  }

  function InitLanes(seed: u32): Lanes
  {
    [Add32(Add32(seed, P1), P2), Add32(seed, P2), seed, Sub32(seed, P1)]
  }

  /** One 16-byte stripe, four bytes per lane. */
  function Absorb(v: Lanes, stripe: seq<u8>): Lanes
    requires |stripe| == 16
  {
    [Round(v[0], ReadLE32(stripe, 0)), Round(v[1], ReadLE32(stripe, 4)),
     Round(v[2], ReadLE32(stripe, 8)), Round(v[3], ReadLE32(stripe, 12))]
  }

  /** The lanes after the first `n` stripes. */
  function Fold(seed: u32, input: seq<u8>, n: nat): Lanes
    requires 16 * n <= |input|
  {
    if n == 0 then InitLanes(seed) else Absorb(Fold(seed, input, n - 1), input[16 * (n - 1)..16 * n])
  }

  function Merge(v: Lanes): u32
  {
    Add32(Add32(Add32(Rotl32(v[0], 1), Rotl32(v[1], 7)), Rotl32(v[2], 12)), Rotl32(v[3], 18))
  }

  function Process4(h: u32, word: u32): u32 { Mul32(Rotl32(Add32(h, Mul32(word, P3)), 17), P4) }

  function Process1(h: u32, byte: u8): u32 { Mul32(Rotl32(Add32(h, Mul32(byte, P5)), 11), P1) }

  /** The tail: four bytes at a time while they last, then single bytes. */
  function Finish(h: u32, tail: seq<u8>): u32
    decreases |tail|
  {
    if |tail| >= 4 then Finish(Process4(h, ReadLE32(tail, 0)), tail[4..])
    else if |tail| > 0 then Finish(Process1(h, tail[0]), tail[1..])
    else Avalanche(h)
  }

  /** XXH32 of `input`; only the low 32 bits of the length enter the hash. */
  function Hash(input: seq<u8>, seed: u32): u32
  {
    var stripes := |input| / 16;
    var h := if |input| >= 16 then Merge(Fold(seed, input, stripes)) else Add32(seed, P5);
    Finish(Add32(h, |input| % TWO32), input[16 * stripes..])
  }

  method Finalize(hash: u32, input: seq<u8>, start: nat, size: nat) returns (h: u32)
    requires start + size % 16 <= |input|
    ensures h == Finish(hash, input[start..start + size % 16])
  {
    hide Finish, Process4, Process1, Avalanche, ReadLE32;
    var len := size % 16;
    ghost var end := start + len;
    var p := start;
    h := hash;
    while len >= 4
      invariant p + len == end && start <= p <= end
      invariant Finish(h, input[p..end]) == Finish(hash, input[start..end])
    {
      Skip(input, p, end, 4);
      FinishStep(h, input[p..end]);
      h := Process4(h, ReadLE32(input, p));
      p, len := p + 4, len - 4;
    }
    while len > 0
      invariant p + len == end && start <= p <= end && len < 4
      invariant Finish(h, input[p..end]) == Finish(hash, input[start..end])
    {
      Skip(input, p, end, 1);
      FinishStep(h, input[p..end]);
      h := Process1(h, input[p]);
      p, len := p + 1, len - 1;
    }
    assert input[p..end] == [];
    FinishStep(h, []);
    h := Avalanche(h);
  }

  lemma FinishStep(h: u32, tail: seq<u8>)
    ensures
      Finish(h, tail) ==
        if |tail| >= 4 then Finish(Process4(h, ReadLE32(tail, 0)), tail[4..])
        else if |tail| > 0 then Finish(Process1(h, tail[0]), tail[1..])
        else Avalanche(h)
  {
  }

  lemma Skip(input: seq<u8>, p: nat, end: nat, n: nat)
    requires p + n <= end <= |input| && n > 0
    ensures input[p..end][n..] == input[p + n..end] && input[p..end][0] == input[p]
    ensures n >= 4 ==> ReadLE32(input[p..end], 0) == ReadLE32(input, p)
  {
    assert n >= 4 ==> input[p..end][0..4] == input[p..p + 4];
  }

  method OneShot(input: seq<u8>, seed: u32) returns (r: u32)
    ensures r == Hash(input, seed)
  {
    hide Absorb, Merge, Finish, InitLanes;
    var len := |input|;
    var p := 0;
    var h;
    if len >= 16 {
      var limit := len - 15;
      var v := InitLanes(seed);
      ghost var n := 0;
      while true
        invariant p == 16 * n && p < limit && v == Fold(seed, input, n)
        decreases limit - p
      {
        v := Absorb(v, input[p..p + 16]);
        p, n := p + 16, n + 1;
        if p >= limit { break; }
      }
      assert n == len / 16;
      h := Merge(v);
    } else {
      h := Add32(seed, P5);
    }
    h := Add32(h, len % TWO32);
    r := Finalize(h, input, p, len % 16);
    assert input[p..p + len % 16] == input[16 * (len / 16)..];
  }

  lemma {:induction false} FoldOfPrefix(seed: u32, input: seq<u8>, more: seq<u8>, n: nat)
    requires 16 * n <= |input|
    ensures Fold(seed, input + more, n) == Fold(seed, input, n)
  {
    hide Absorb;
    if n != 0 {
      FoldOfPrefix(seed, input, more, n - 1);
      assert (input + more)[16 * (n - 1)..16 * n] == input[16 * (n - 1)..16 * n];
    }
  }

  /** The flag survives the wrap-around of the 32-bit length. */
  lemma LargeEnough(large: bool, m: nat, n: nat)
    requires large <==> m >= 16
    ensures (large || n >= 16 || (m + n) % TWO32 >= 16) <==> m + n >= 16
  {
    if m + n < 32 {
      assert (m + n) % TWO32 == m + n;
    }
  }

  /** The held bytes followed by the first bytes of the input are one stripe of the whole. */
  lemma Completed(stripe: seq<u8>, held: seq<u8>, before: seq<u8>, input: seq<u8>, start: nat)
    requires |stripe| == 16 && |held| <= 16 <= |held| + |input|
    requires forall j :: 0 <= j < 16 ==> stripe[j] == if j < |held| then held[j] else input[j - |held|]
    requires start <= |before| && held == before[start..]
    ensures stripe == (before + input)[start..start + 16]
  {
  }

  class State {
    var totalLen32: u32
    var largeLen: bool
    var v: Lanes
    const mem: array<u8>
    var memsize: nat
    ghost var seed: u32
    ghost var data: seq<u8>
    ghost var folded: nat

    /** `largeLen` records whether the true length, not the wrapped one, reached 16. */
    ghost predicate Ready()
      reads this, mem
    {
      && mem.Length == 16
      && memsize < 16
      && |data| == 16 * folded + memsize
      && v == Fold(seed, data, folded)
      && mem[..memsize] == data[16 * folded..]
      && totalLen32 == |data| % TWO32
      && (largeLen <==> |data| >= 16)
    }

    constructor (seed: u32)
      ensures Ready() && fresh(mem) && data == [] && this.seed == seed
    {
      totalLen32, largeLen, memsize := 0, false, 0;
      v := InitLanes(seed);
      mem := new u8[16];
      this.seed, data, folded := seed, [], 0;
    }

    method Update(input: seq<u8>)
      requires Ready()
      modifies this, mem
      ensures Ready() && data == old(data) + input && seed == old(seed)
    {
      hide Fold;
      ghost var all := data + input;
      FoldOfPrefix(seed, data, input, folded);
      var len := |input|;
      CountUp(len);
      TakeIn(input, all);
      data := all;
    }

    method CountUp(len: nat)
      requires totalLen32 == |data| % TWO32 && (largeLen <==> |data| >= 16)
      modifies this`totalLen32, this`largeLen
      ensures totalLen32 == (|data| + len) % TWO32 && (largeLen <==> |data| + len >= 16)
    {
      WrapSum32(|data|, len);
      totalLen32 := Add32(totalLen32, len);
      largeLen := largeLen || len >= 16 || totalLen32 >= 16;
      LargeEnough(old(largeLen), |data|, len);
    }

    /** Fold the whole stripes and keep the rest. */
    method TakeIn(input: seq<u8>, ghost all: seq<u8>)
      requires mem.Length == 16 && memsize < 16 && all == data + input && |data| == 16 * folded + memsize
      requires v == Fold(seed, all, folded) && mem[..memsize] == data[16 * folded..]
      modifies this`v, this`memsize, this`folded, mem
      ensures memsize < 16 && |all| == 16 * folded + memsize
      ensures v == Fold(seed, all, folded) && mem[..memsize] == all[16 * folded..]
    {
      hide Fold;
      if memsize + |input| < 16 {
        KeepWhole(input, all);
      } else {
        var p := 0;
        if memsize != 0 {
          p := CompleteStripe(input, all);
        }
        p := AbsorbStripes(input, p, all);
        KeepTail(input, p, all);
      }
    }

    /** Not yet a stripe: append to the buffer. */
    method KeepWhole(input: seq<u8>, ghost all: seq<u8>)
      requires mem.Length == 16 && memsize + |input| < 16
      requires all == data + input && |data| == 16 * folded + memsize && mem[..memsize] == data[16 * folded..]
      modifies this`memsize, mem
      ensures memsize == old(memsize) + |input| && mem[..memsize] == all[16 * folded..]
    {
      Store(memsize, input);
      memsize := memsize + |input|;
      assert mem[..memsize] == all[16 * folded..];
    }

    method KeepTail(input: seq<u8>, p: nat, ghost all: seq<u8>)
      requires mem.Length == 16 && memsize == 0 && p <= |input| < p + 16
      requires all == data + input && |data| + p == 16 * folded
      modifies this`memsize, mem
      ensures memsize == |input| - p && mem[..memsize] == all[16 * folded..]
    {
      if p < |input| {
        Store(0, input[p..]);
        memsize := |input| - p;
      }
      assert mem[..memsize] == all[16 * folded..];
    }

    method Store(at: nat, bytes: seq<u8>)
      requires mem.Length == 16 && at + |bytes| <= 16
      modifies mem
      ensures forall j :: 0 <= j < 16 ==> mem[j] == if at <= j < at + |bytes| then bytes[j - at] else old(mem[j])
    {
      forall j | 0 <= j < |bytes| {
        mem[at + j] := bytes[j];
      }
    }

    method CompleteStripe(input: seq<u8>, ghost all: seq<u8>) returns (p: nat)
      requires mem.Length == 16 && 0 < memsize < 16 <= memsize + |input|
      requires all == data + input && |data| == 16 * folded + memsize
      requires v == Fold(seed, all, folded) && mem[..memsize] == data[16 * folded..]
      modifies this`v, this`memsize, this`folded, mem
      ensures p == 16 - old(memsize) && memsize == 0 && folded == old(folded) + 1
      ensures v == Fold(seed, all, folded)
    {
      hide Absorb, InitLanes;
      p := 16 - memsize;
      ghost var held := mem[..memsize];
      Store(memsize, input[..p]);
      Completed(mem[..], held, data, input, 16 * folded);
      assert 16 * folded + 16 == 16 * (folded + 1);
      v := Absorb(v, mem[..]);
      memsize := 0;
      folded := folded + 1;
    }

    method AbsorbStripes(input: seq<u8>, start: nat, ghost all: seq<u8>) returns (p: nat)
      requires all == data + input && start <= |input| && |data| + start == 16 * folded
      requires v == Fold(seed, all, folded)
      modifies this`v, this`folded
      ensures start <= p <= |input| < p + 16 && |data| + p == 16 * folded
      ensures v == Fold(seed, all, folded)
    {
      hide Absorb, InitLanes;
      p := start;
      var limit := |input| - 16;
      while p <= limit
        invariant start <= p <= |input| && |data| + p == 16 * folded && v == Fold(seed, all, folded)
      {
        assert input[p..p + 16] == all[16 * folded..16 * (folded + 1)];
        v := Absorb(v, input[p..p + 16]);
        p := p + 16;
        folded := folded + 1;
      }
    }

    /** The digest is the one-shot hash of everything given, however long it is. */
    method Digest() returns (r: u32)
      requires Ready()
      ensures r == Hash(data, seed)
    {
      hide Hash, Fold, Merge, Finish, Add32;
      HashParts(data, seed);
      DivModUnique(|data|, 16, folded, memsize);
      if folded == 0 { NoStripes(seed, data); }
      var h := if largeLen then Merge(v) else Add32(v[2], P5);
      h := Add32(h, totalLen32);
      DivModUnique(memsize, 16, 0, memsize);
      r := Finalize(h, mem[..], 0, memsize);
      assert mem[..][0..memsize] == mem[..memsize];
    }
  }

  lemma NoStripes(seed: u32, input: seq<u8>)
    ensures Fold(seed, input, 0)[2] == seed
  {
  }

  lemma HashParts(input: seq<u8>, seed: u32)
    ensures
      var n := |input| / 16;
      && 16 * n <= |input|
      && Hash(input, seed)
         == Finish(Add32(if |input| >= 16 then Merge(Fold(seed, input, n)) else Add32(seed, P5), |input| % TWO32),
                   input[16 * n..])
  {
  }

  method HashPieces(pieces: seq<seq<u8>>, seed: u32) returns (r: u32)
    ensures r == Hash(Concat(pieces), seed)
  {
    hide Hash;
    var state := new State(seed);
    assert pieces[..0] == [];
    for i := 0 to |pieces|
      invariant state.Ready() && state.data == Concat(pieces[..i]) && state.seed == seed
      invariant fresh(state) && fresh(state.mem)
    {
      state.Update(pieces[i]);
      assert pieces[..i + 1][..i] == pieces[..i];
    }
    assert pieces[..|pieces|] == pieces;
    r := state.Digest();
  }
}
