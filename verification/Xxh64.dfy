/** XXH64: the one-shot loop and the streaming state, both against a stripe-by-stripe fold. */
module Xxh64 {
  import opened Arith
  import opened Words

  const P1: u64 := 0x9E3779B185EBCA87
  const P2: u64 := 0xC2B2AE3D27D4EB4F
  const P3: u64 := 0x165667B19E3779F9
  const P4: u64 := 0x85EBCA77C2B2AE63
  const P5: u64 := 0x27D4EB2F165667C5

  type Lanes = s: seq<u64> | |s| == 4 witness [0, 0, 0, 0]

  function Round(acc: u64, input: u64): u64
  {
    Mul64(Rotl64(Add64(acc, Mul64(input, P2)), 31), P1)
  }

  function MergeRound(acc: u64, val: u64): u64
  {
    Add64(Mul64(Xor64(acc, Round(0, val)), P1), P4)
  }

  function Avalanche(h: u64): u64
  {
    var h1 := Mul64(Xor64(h, Shr64(h, 33)), P2);
    var h2 := Mul64(Xor64(h1, Shr64(h1, 29)), P3);
    Xor64(h2, Shr64(h2, 32))
  }

  function InitLanes(seed: u64): Lanes
  {
    [Add64(Add64(seed, P1), P2), Add64(seed, P2), seed, Sub64(seed, P1)]
  }

  /** One 32-byte stripe, eight bytes per lane. */
  function Absorb(v: Lanes, stripe: seq<u8>): Lanes
    requires |stripe| == 32
  {
    [Round(v[0], ReadLE64(stripe, 0)), Round(v[1], ReadLE64(stripe, 8)),
     Round(v[2], ReadLE64(stripe, 16)), Round(v[3], ReadLE64(stripe, 24))]
  }

  /** The lanes after the first `n` stripes. */
  function Fold(seed: u64, input: seq<u8>, n: nat): Lanes
    requires 32 * n <= |input|
  {
    if n == 0 then InitLanes(seed) else Absorb(Fold(seed, input, n - 1), input[32 * (n - 1)..32 * n])
  }

  function Merge(v: Lanes): u64
  {
    var h := Add64(Add64(Add64(Rotl64(v[0], 1), Rotl64(v[1], 7)), Rotl64(v[2], 12)), Rotl64(v[3], 18));
    MergeRound(MergeRound(MergeRound(MergeRound(h, v[0]), v[1]), v[2]), v[3])
  }

  function Process8(h: u64, word: u64): u64 { Add64(Mul64(Rotl64(Xor64(h, Round(0, word)), 27), P1), P4) }

  function Process4(h: u64, word: u32): u64 { Add64(Mul64(Rotl64(Xor64(h, Mul64(word, P1)), 23), P2), P3) }

  function Process1(h: u64, byte: u8): u64 { Mul64(Rotl64(Xor64(h, Mul64(byte, P5)), 11), P1) }

  /** The tail: eight bytes at a time while they last, then four, then single bytes. */
  function Finish(h: u64, tail: seq<u8>): u64
    decreases |tail|
  {
    if |tail| >= 8 then Finish(Process8(h, ReadLE64(tail, 0)), tail[8..])
    else if |tail| >= 4 then Finish(Process4(h, ReadLE32(tail, 0)), tail[4..])
    else if |tail| > 0 then Finish(Process1(h, tail[0]), tail[1..])
    else Avalanche(h)
  }

  /** XXH64 of `input`. */
  function Hash(input: seq<u8>, seed: u64): u64
  {
    var stripes := |input| / 32;
    var h := if |input| >= 32 then Merge(Fold(seed, input, stripes)) else Add64(seed, P5);
    Finish(Add64(h, |input|), input[32 * stripes..])
  }

  method Finalize(hash: u64, input: seq<u8>, start: nat, size: nat) returns (h: u64)
    requires start + size % 32 <= |input|
    ensures h == Finish(hash, input[start..start + size % 32])
  {
    hide Finish, Process8, Process4, Process1, Avalanche, ReadLE64, ReadLE32;
    var len := size % 32;
    ghost var end := start + len;
    var p := start;
    h := hash;
    while len >= 8
      invariant p + len == end && start <= p <= end
      invariant Finish(h, input[p..end]) == Finish(hash, input[start..end])
    {
      Skip(input, p, end, 8);
      FinishStep(h, input[p..end]);
      h := Process8(h, ReadLE64(input, p));
      p, len := p + 8, len - 8;
    }
    if len >= 4 {
      Skip(input, p, end, 4);
      FinishStep(h, input[p..end]);
      h := Process4(h, ReadLE32(input, p));
      p, len := p + 4, len - 4;
    }
    while len > 0
      invariant p + len == end && start <= p <= end && len < 4
      invariant Finish(h, input[p..end]) == Finish(hash, input[start..end])
    {
      Skip(input, p, end, 1);
      FinishStep(h, input[p..end]);
      h := Process1(h, input[p]);
      p, len := p + 1, len - 1;
    }
    assert input[p..end] == [];
    FinishStep(h, []);
    h := Avalanche(h);
  }

  lemma FinishStep(h: u64, tail: seq<u8>)
    ensures
      Finish(h, tail) ==
        if |tail| >= 8 then Finish(Process8(h, ReadLE64(tail, 0)), tail[8..])
        else if |tail| >= 4 then Finish(Process4(h, ReadLE32(tail, 0)), tail[4..])
        else if |tail| > 0 then Finish(Process1(h, tail[0]), tail[1..])
        else Avalanche(h)
  {
  }

  lemma Skip(input: seq<u8>, p: nat, end: nat, n: nat)
    requires p + n <= end <= |input| && n > 0
    ensures input[p..end][n..] == input[p + n..end] && input[p..end][0] == input[p]
    ensures n >= 4 ==> ReadLE32(input[p..end], 0) == ReadLE32(input, p)
    ensures n >= 8 ==> ReadLE64(input[p..end], 0) == ReadLE64(input, p)
  {
    assert n >= 4 ==> input[p..end][0..4] == input[p..p + 4];
    assert n >= 8 ==> input[p..end][0..8] == input[p..p + 8];
  }

  method OneShot(input: seq<u8>, seed: u64) returns (r: u64)
    ensures r == Hash(input, seed)
  {
    hide Absorb, Merge, Finish, InitLanes;
    var len := |input|;
    var p := 0;
    var h;
    if len >= 32 {
      var limit := len - 31;
      var v := InitLanes(seed);
      ghost var n := 0;
      while true
        invariant p == 32 * n && p < limit && v == Fold(seed, input, n)
        decreases limit - p
      {
        v := Absorb(v, input[p..p + 32]);
        p, n := p + 32, n + 1;
        if p >= limit { break; }
      }
      assert n == len / 32;
      h := Merge(v);
    } else {
      h := Add64(seed, P5);
    }
    h := Add64(h, len);
    r := Finalize(h, input, p, len);
    assert input[p..p + len % 32] == input[32 * (len / 32)..];
  }

  lemma {:induction false} FoldOfPrefix(seed: u64, input: seq<u8>, more: seq<u8>, n: nat)
    requires 32 * n <= |input|
    ensures Fold(seed, input + more, n) == Fold(seed, input, n)
  {
    hide Absorb;
    if n != 0 {
      FoldOfPrefix(seed, input, more, n - 1);
      assert (input + more)[32 * (n - 1)..32 * n] == input[32 * (n - 1)..32 * n];
    }
  }

  /** The held bytes followed by the first bytes of the input are one stripe of the whole. */
  lemma Completed(stripe: seq<u8>, held: seq<u8>, before: seq<u8>, input: seq<u8>, start: nat)
    requires |stripe| == 32 && |held| <= 32 <= |held| + |input|
    requires forall j :: 0 <= j < 32 ==> stripe[j] == if j < |held| then held[j] else input[j - |held|]
    requires start <= |before| && held == before[start..]
    ensures stripe == (before + input)[start..start + 32]
  {
  }

  class State {
    var totalLen: u64
    var v: Lanes
    const mem: array<u8>
    var memsize: nat
    ghost var seed: u64
    ghost var data: seq<u8>
    ghost var folded: nat

    ghost predicate Ready()
      reads this, mem
    {
      && mem.Length == 32
      && memsize < 32
      && |data| == 32 * folded + memsize
      && v == Fold(seed, data, folded)
      && mem[..memsize] == data[32 * folded..]
      && totalLen == |data| % TWO64
    }

    constructor (seed: u64)
      ensures Ready() && fresh(mem) && data == [] && this.seed == seed
    {
      totalLen, memsize := 0, 0;
      v := InitLanes(seed);
      mem := new u8[32];
      this.seed, data, folded := seed, [], 0;
    }

    method Update(input: seq<u8>)
      requires Ready()
      modifies this, mem
      ensures Ready() && data == old(data) + input && seed == old(seed)
    {
      hide Fold;
      ghost var all := data + input;
      FoldOfPrefix(seed, data, input, folded);
      var len := |input|;
      WrapSum64(|data|, len);
      totalLen := Add64(totalLen, len);
      TakeIn(input, all);
      data := all;
    }

    /** Fold the whole stripes and keep the rest. */
    method TakeIn(input: seq<u8>, ghost all: seq<u8>)
      requires mem.Length == 32 && memsize < 32 && all == data + input && |data| == 32 * folded + memsize
      requires v == Fold(seed, all, folded) && mem[..memsize] == data[32 * folded..]
      modifies this`v, this`memsize, this`folded, mem
      ensures memsize < 32 && |all| == 32 * folded + memsize
      ensures v == Fold(seed, all, folded) && mem[..memsize] == all[32 * folded..]
    {
      hide Fold;
      if memsize + |input| < 32 {
        KeepWhole(input, all);
      } else {
        var p := 0;
        if memsize != 0 {
          p := CompleteStripe(input, all);
        }
        p := AbsorbStripes(input, p, all);
        KeepTail(input, p, all);
      }
    }

    /** Not yet a stripe: append to the buffer. */
    method KeepWhole(input: seq<u8>, ghost all: seq<u8>)
      requires mem.Length == 32 && memsize + |input| < 32
      requires all == data + input && |data| == 32 * folded + memsize && mem[..memsize] == data[32 * folded..]
      modifies this`memsize, mem
      ensures memsize == old(memsize) + |input| && mem[..memsize] == all[32 * folded..]
    {
      Store(memsize, input);
      memsize := memsize + |input|;
      assert mem[..memsize] == all[32 * folded..];
    }

    method KeepTail(input: seq<u8>, p: nat, ghost all: seq<u8>)
      requires mem.Length == 32 && memsize == 0 && p <= |input| < p + 32
      requires all == data + input && |data| + p == 32 * folded
      modifies this`memsize, mem
      ensures memsize == |input| - p && mem[..memsize] == all[32 * folded..]
    {
      if p < |input| {
        Store(0, input[p..]);
        memsize := |input| - p;
      }
      assert mem[..memsize] == all[32 * folded..];
    }

    method Store(at: nat, bytes: seq<u8>)
      requires mem.Length == 32 && at + |bytes| <= 32
      modifies mem
      ensures forall j :: 0 <= j < 32 ==> mem[j] == if at <= j < at + |bytes| then bytes[j - at] else old(mem[j])
    {
      forall j | 0 <= j < |bytes| {
        mem[at + j] := bytes[j];
      }
    }

    method CompleteStripe(input: seq<u8>, ghost all: seq<u8>) returns (p: nat)
      requires mem.Length == 32 && 0 < memsize < 32 <= memsize + |input|
      requires all == data + input && |data| == 32 * folded + memsize
      requires v == Fold(seed, all, folded) && mem[..memsize] == data[32 * folded..]
      modifies this`v, this`memsize, this`folded, mem
      ensures p == 32 - old(memsize) && memsize == 0 && folded == old(folded) + 1
      ensures v == Fold(seed, all, folded)
    {
      hide Absorb, InitLanes;
      p := 32 - memsize;
      ghost var held := mem[..memsize];
      Store(memsize, input[..p]);
      Completed(mem[..], held, data, input, 32 * folded);
      assert 32 * folded + 32 == 32 * (folded + 1);
      v := Absorb(v, mem[..]);
      memsize := 0;
      folded := folded + 1;
    }

    method AbsorbStripes(input: seq<u8>, start: nat, ghost all: seq<u8>) returns (p: nat)
      requires all == data + input && start <= |input| && |data| + start == 32 * folded
      requires v == Fold(seed, all, folded)
      modifies this`v, this`folded
      ensures start <= p <= |input| < p + 32 && |data| + p == 32 * folded
      ensures v == Fold(seed, all, folded)
    {
      hide Absorb, InitLanes;
      p := start;
      var limit := |input| - 32;
      while p <= limit
        invariant start <= p <= |input| && |data| + p == 32 * folded && v == Fold(seed, all, folded)
      {
        assert input[p..p + 32] == all[32 * folded..32 * (folded + 1)];
        v := Absorb(v, input[p..p + 32]);
        p := p + 32;
        folded := folded + 1;
      }
    }

    /** The digest is the one-shot hash of everything given, up to what a 64-bit length can count. */
    method Digest() returns (r: u64)
      requires Ready() && |data| < TWO64
      ensures r == Hash(data, seed)
    {
      hide Hash, Fold, Merge, Finish, Add64;
      HashParts(data, seed);
      DivModUnique(|data|, TWO64, 0, |data|);
      DivModUnique(|data|, 32, folded, memsize);
      if folded == 0 { NoStripes(seed, data); }
      var h := if totalLen >= 32 then Merge(v) else Add64(v[2], P5);
      h := Add64(h, totalLen);
      assert totalLen % 32 == memsize && mem[..][0..0 + memsize] == mem[..memsize];
      r := Finalize(h, mem[..], 0, totalLen);
    }
  }

  lemma NoStripes(seed: u64, input: seq<u8>)
    ensures Fold(seed, input, 0)[2] == seed
  {
  }

  lemma HashParts(input: seq<u8>, seed: u64)
    ensures
      var n := |input| / 32;
      && 32 * n <= |input|
      && Hash(input, seed)
         == Finish(Add64(if |input| >= 32 then Merge(Fold(seed, input, n)) else Add64(seed, P5), |input|),
                   input[32 * n..])
  {
  }

  method HashPieces(pieces: seq<seq<u8>>, seed: u64) returns (r: u64)
    requires |Concat(pieces)| < TWO64
    ensures r == Hash(Concat(pieces), seed)
  {
    hide Hash;
    var state := new State(seed);
    assert pieces[..0] == [];
    for i := 0 to |pieces|
      invariant state.Ready() && state.data == Concat(pieces[..i]) && state.seed == seed
      invariant fresh(state) && fresh(state.mem)
    {
      state.Update(pieces[i]);
      assert pieces[..i + 1][..i] == pieces[..i];
    }
    assert pieces[..|pieces|] == pieces;
    r := state.Digest();
  }
}
