/** Multi-byte NOPs and the padding of a code range with them. Instruction lengths are computed by a
    small decoder, independent of the table. */
module NopFill {
  import opened Wrappers
  import opened Words

  // ---------------------------------------------------------------- decoding one instruction

  function Prefixes(code: seq<u8>): (n: nat)
    ensures n <= |code|
  {
    if |code| > 0 && (code[0] == 0x66 || code[0] == 0x2e) then 1 + Prefixes(code[1..]) else 0
  }

  /** Bytes taken by the ModRM byte, the SIB byte if there is one, and the displacement. */
  function OperandLength(modrm: u8, sib: u8): nat
  {
    var mod, rm := modrm / 64, modrm % 8;
    var hasSib := mod != 3 && rm == 4;
    1 + (if hasSib then 1 else 0)
      + (if mod == 1 then 1
         else if mod == 2 then 4
         else if mod == 0 && (rm == 5 || (hasSib && sib % 8 == 5)) then 4
         else 0)
  }

  /** The length of the NOP at the start of `code`: `90` or `0F 1F /0`, after any `66` and `2E`
      prefixes; 0 if there is no such instruction, it is cut off, or it is longer than 15 bytes. */
  function NopLength(code: seq<u8>): (n: nat)
    ensures n <= |code| && n <= 15
  {
    var p := Prefixes(code);
    var n :=
      if p < |code| && code[p] == 0x90 then p + 1
      else if p + 2 < |code| && code[p] == 0x0f && code[p + 1] == 0x1f && code[p + 2] / 8 % 8 == 0 then
        p + 2 + OperandLength(code[p + 2], if p + 3 < |code| then code[p + 3] else 0)
      else 0;
    if n <= |code| && n <= 15 then n else 0
  }

  /** Control flow in padding: a NOP goes on behind itself, `EB` jumps by a signed byte. */
  function Step(code: seq<u8>, pc: nat): Option<int>
    requires pc <= |code|
  {
    var n := NopLength(code[pc..]);
    if n > 0 then Some(pc + n)
    else if pc + 1 < |code| && code[pc] == 0xeb then Some(pc + 2 + Signed8(code[pc + 1]))
    else None
  }

  function Signed8(b: u8): int { var v: int := b; if v >= 128 then v - 256 else v }

  /** `code` is a series of whole NOPs. */
  predicate IsNops(code: seq<u8>)
    decreases |code|
  {
    code == [] || (NopLength(code) > 0 && IsNops(code[NopLength(code)..]))
  }

  lemma {:induction false} PrefixesOfLonger(code: seq<u8>, rest: seq<u8>)
    requires Prefixes(code) < |code|
    ensures Prefixes(code + rest) == Prefixes(code)
  {
    if code[0] == 0x66 || code[0] == 0x2e {
      assert (code + rest)[1..] == code[1..] + rest;
      PrefixesOfLonger(code[1..], rest);
    }
  }

  /** Decoding an instruction does not look past it. */
  lemma NopOfLonger(code: seq<u8>, rest: seq<u8>)
    requires NopLength(code) > 0
    ensures NopLength(code + rest) == NopLength(code)
  {
    PrefixesOfLonger(code, rest);
  }

  lemma NoNops()
    ensures IsNops([])
  {
  }

  lemma {:induction false} IsNopsAppend(a: seq<u8>, b: seq<u8>)
    requires IsNops(a) && IsNops(b)
    ensures IsNops(a + b)
    decreases |a|
  {
    hide NopLength;
    if a == [] {
      assert a + b == b;
    } else {
      var n := NopLength(a);
      NopOfLonger(a, b);
      assert (a + b)[n..] == a[n..] + b;
      IsNopsAppend(a[n..], b);
    }
  }

  // ---------------------------------------------------------------- the table

  function MultiByteNop(n: nat): seq<u8>
    requires 1 <= n <= 15
  {
    if n <= 5 then Nop1To5(n) else if n <= 10 then Nop6To10(n) else Nop11To15(n)
  }

  function Nop1To5(n: nat): seq<u8>
    requires 1 <= n <= 5
  {
    if n == 1 then [0x90]
    else if n == 2 then [0x66, 0x90]
    else if n == 3 then [0x0f, 0x1f, 0x00]
    else if n == 4 then [0x0f, 0x1f, 0x40, 0x00]
    else [0x0f, 0x1f, 0x44, 0x00, 0x00]
  }

  function Nop6To10(n: nat): seq<u8>
    requires 6 <= n <= 10
  {
    if n == 6 then [0x66, 0x0f, 0x1f, 0x44, 0x00, 0x00]
    else if n == 7 then [0x0f, 0x1f, 0x80, 0x00, 0x00, 0x00, 0x00]
    else if n == 8 then [0x0f, 0x1f, 0x84, 0x00, 0x00, 0x00, 0x00, 0x00]
    else if n == 9 then [0x66, 0x0f, 0x1f, 0x84, 0x00, 0x00, 0x00, 0x00, 0x00]
    else [0x66, 0x2e, 0x0f, 0x1f, 0x84, 0x00, 0x00, 0x02, 0x00, 0x00]
  }

  function Nop11To15(n: nat): seq<u8>
    requires 11 <= n <= 15
  {
    if n == 11 then [0x66, 0x66, 0x2e, 0x0f, 0x1f, 0x84, 0x00, 0x00, 0x02, 0x00, 0x00]
    else if n == 12 then [0x66, 0x66, 0x66, 0x2e, 0x0f, 0x1f, 0x84, 0x00, 0x00, 0x02, 0x00, 0x00]
    else if n == 13 then [0x66, 0x66, 0x66, 0x66, 0x2e, 0x0f, 0x1f, 0x84, 0x00, 0x00, 0x02, 0x00, 0x00]
    else if n == 14 then [0x66, 0x66, 0x66, 0x66, 0x66, 0x2e, 0x0f, 0x1f, 0x84, 0x00, 0x00, 0x02, 0x00, 0x00]
    else [0x66, 0x66, 0x66, 0x66, 0x66, 0x66, 0x2e, 0x0f, 0x1f, 0x84, 0x00, 0x00, 0x02, 0x00, 0x00]
  }

  lemma {:induction false} PrefixRun(code: seq<u8>, k: nat)
    requires k < |code| && (forall i :: 0 <= i < k ==> code[i] == 0x66 || code[i] == 0x2e)
    requires code[k] != 0x66 && code[k] != 0x2e
    ensures Prefixes(code) == k
  {
    if k > 0 {
      assert code[1..][k - 1] == code[k];
      PrefixRun(code[1..], k - 1);
    }
  }

  /** `k` prefixes, then `0F 1F` with a ModRM byte that asks for `n - k - 3` more bytes. */
  lemma LongNop(code: seq<u8>, k: nat)
    requires k + 3 < |code| <= 15 && (forall i :: 0 <= i < k ==> code[i] == 0x66 || code[i] == 0x2e)
    requires code[k] == 0x0f && code[k + 1] == 0x1f && code[k + 3] == 0
    requires (code[k + 2] == 0x40 && |code| == k + 4) || (code[k + 2] == 0x44 && |code| == k + 5)
          || (code[k + 2] == 0x80 && |code| == k + 7) || (code[k + 2] == 0x84 && |code| == k + 8)
    ensures NopLength(code) == |code|
  {
    PrefixRun(code, k);
  }

  /** Entry `n` of the table is one NOP of exactly `n` bytes. */
  lemma TableEntry(n: nat)
    requires 1 <= n <= 15
    ensures |MultiByteNop(n)| == n && NopLength(MultiByteNop(n)) == n
  {
    hide NopLength, Nop1To5, Nop6To10, Nop11To15;
    if n <= 5 {
      Entry1To5(n);
    } else if n <= 10 {
      Entry6To10(n);
    } else {
      Entry11To15(n);
    }
  }

  lemma Entry1To5(n: nat)
    requires 1 <= n <= 5
    ensures |Nop1To5(n)| == n && NopLength(Nop1To5(n)) == n
  {
    if n <= 3 {
      PrefixRun(Nop1To5(n), if n == 2 then 1 else 0);
    } else {
      hide NopLength;
      LongNop(Nop1To5(n), 0);
    }
  }

  lemma Entry6To10(n: nat)
    requires 6 <= n <= 10
    ensures |Nop6To10(n)| == n && NopLength(Nop6To10(n)) == n
  {
    hide NopLength;
    if n == 6 { LongNop(Nop6To10(6), 1); }
    else if n == 7 { LongNop(Nop6To10(7), 0); }
    else if n == 8 { LongNop(Nop6To10(8), 0); }
    else if n == 9 { LongNop(Nop6To10(9), 1); }
    else { LongNop(Nop6To10(10), 2); }
  }

  lemma Entry11To15(n: nat)
    requires 11 <= n <= 15
    ensures |Nop11To15(n)| == n && NopLength(Nop11To15(n)) == n
  {
    hide NopLength;
    if n == 11 { LongNop(Nop11To15(11), 3); }
    else if n == 12 { LongNop(Nop11To15(12), 4); }
    else if n == 13 { LongNop(Nop11To15(13), 5); }
    else if n == 14 { LongNop(Nop11To15(14), 6); }
    else { LongNop(Nop11To15(15), 7); }
  }

  // ---------------------------------------------------------------- filling a range

  /** The range becomes whole NOPs that end exactly at its end, a single one if it can be; nothing
      else changes. */
  method FillAddressRange(code: array<u8>, start: nat, length: nat)
    requires start + length <= code.Length
    modifies code
    ensures IsNops(code[start..start + length])
    ensures 1 <= length <= 15 ==> NopLength(code[start..start + length]) == length
    ensures code[..start] == old(code[..start]) && code[start + length..] == old(code[start + length..])
  {
    hide NopLength, IsNops;
    assert code[start..start] == [];
    NoNops();
    var addr, left := start, length;
    while left > 0
      invariant addr + left == start + length
      invariant IsNops(code[start..addr])
      invariant 1 <= length <= 15 ==> addr == start || (left == 0 && NopLength(code[start..addr]) == length)
      invariant code[..start] == old(code[..start]) && code[start + length..] == old(code[start + length..])
    {
      var instLen := if left < 15 then left else 15;
      ghost var front, back := code[..addr], code[addr + instLen..];
      PutNop(code, start, addr, instLen);
      assert code[..start] == code[..addr][..start] == front[..start];
      assert code[start + length..] == code[addr + instLen..][left - instLen..] == back[left - instLen..];
      left := left - instLen;
      addr := addr + instLen;
    }
  }

  /** One NOP behind those already written. */
  method PutNop(code: array<u8>, ghost start: nat, addr: nat, n: nat)
    requires start <= addr && addr + n <= code.Length && 1 <= n <= 15 && IsNops(code[start..addr])
    modifies code
    ensures IsNops(code[start..addr + n]) && (addr == start ==> NopLength(code[start..addr + n]) == n)
    ensures code[..addr] == old(code[..addr]) && code[addr + n..] == old(code[addr + n..])
  {
    hide NopLength, MultiByteNop;
    TableEntry(n);
    var inst := MultiByteNop(n);
    ghost var before := code[start..addr];
    forall j | 0 <= j < n {
      code[addr + j] := inst[j];
    }
    assert code[start..addr + n] == before + inst;
    assert inst[n..] == [];
    IsNopsAppend(before, inst);
    assert addr == start ==> before + inst == inst;
  }
}
