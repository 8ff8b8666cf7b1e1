/** Fusing the cached effect kind into the interpreter opcode. The opcode field is 16 bits, the
    kind 8 bits; an update subtracts the sign-extended old kind and adds the zero-extended new one. */
module OpcodeFusion {
  import opened Arith

  const OPCODES := 0x1_0000
  /** The kind of an entry that does not exist: -1 as a signed byte. */
  const NO_KIND: nat := 255

  function SignExtended(kind: nat): int { if kind >= 128 then kind - 256 else kind }

  function UpdateOpcode(opcode: nat, oldKind: nat, newKind: nat): (r: nat)
    ensures r < OPCODES
  {
    (opcode - SignExtended(oldKind) + newKind) % OPCODES
  }

  /** The opcode of the variant for a kind: the initial variant first, then kind 0, 1, ... */
  function VariantOpcode(initial: nat, kind: nat): nat
  {
    if kind == NO_KIND then initial % OPCODES else (initial + 1 + kind) % OPCODES
  }

  /** The kind in force after a run of updates, and the opcode. */
  function LastKind(kinds: seq<nat>): nat { if |kinds| == 0 then NO_KIND else kinds[|kinds| - 1] }

  function OpcodeAfter(initial: nat, kinds: seq<nat>): nat
  {
    if |kinds| == 0 then initial % OPCODES
    else UpdateOpcode(OpcodeAfter(initial, kinds[..|kinds| - 1]), LastKind(kinds[..|kinds| - 1]), kinds[|kinds| - 1])
  }

  /** How many kinds that were overwritten do not fit in 7 bits. */
  function Misread(kinds: seq<nat>): nat
  {
    if |kinds| <= 1 then 0 else Misread(kinds[..|kinds| - 1]) + (if kinds[|kinds| - 2] >= 128 then 1 else 0)
  }

  lemma {:induction false} MisreadZero(kinds: seq<nat>)
    ensures Misread(kinds) == 0 <==> forall i :: 0 <= i < |kinds| - 1 ==> kinds[i] < 128
  {
    if |kinds| > 1 {
      var before := kinds[..|kinds| - 1];
      MisreadZero(before);
      assert before[|kinds| - 2] == kinds[|kinds| - 2];
      assert forall i :: 0 <= i < |kinds| - 1 ==> before[i] == kinds[i];
    }
  }

  /** Every misread kind moves the opcode 256 too far. */
  lemma {:induction false} OpcodeDrift(initial: nat, kinds: seq<nat>)
    requires forall i :: 0 <= i < |kinds| ==> kinds[i] < 250
    ensures OpcodeAfter(initial, kinds) == (VariantOpcode(initial, LastKind(kinds)) + 256 * Misread(kinds)) % OPCODES
  {
    hide UpdateOpcode, VariantOpcode;
    if |kinds| == 0 {
      NoStep(initial);
    } else {
      var n := |kinds| - 1;
      var before := kinds[..n];
      OpcodeDrift(initial, before);
      if n == 0 {
        assert before == [];
        FirstStep(initial, kinds[0]);
      } else {
        assert before[n - 1] == kinds[n - 1] && before != [];
        DriftStep(initial, kinds[n - 1], kinds[n], Misread(before));
      }
    }
  }

  lemma NoStep(initial: nat)
    ensures initial % OPCODES == (VariantOpcode(initial, NO_KIND) + 256 * 0) % OPCODES
  {
  }

  lemma FirstStep(initial: nat, k: nat)
    requires k < 250
    ensures UpdateOpcode(initial % OPCODES, NO_KIND, k) == (VariantOpcode(initial, k) + 256 * 0) % OPCODES
  {
    WrapSum16(initial, 1 + k);
    WrapSum16(initial + 1 + k, 0);
  }

  lemma DriftStep(initial: nat, k: nat, j: nat, m: nat)
    requires k < 250 && j < 250
    ensures UpdateOpcode((VariantOpcode(initial, k) + 256 * m) % OPCODES, k, j)
            == (VariantOpcode(initial, j) + 256 * (m + (if k >= 128 then 1 else 0))) % OPCODES
  {
    var m' := m + (if k >= 128 then 1 else 0);
    DriftSum(initial + 1 + k, initial + 1 + j, 256 * m, 256 * m', j - SignExtended(k));
  }

  lemma DriftSum(a: int, b: int, drift: int, drift': int, delta: int)
    requires b + drift' == a + drift + delta
    ensures ((a % OPCODES + drift) % OPCODES + delta) % OPCODES == (b % OPCODES + drift') % OPCODES
  {
    WrapSum16(a, drift);
    WrapSum16(a + drift, delta);
    WrapSum16(b, drift');
  }

  /** The opcode names the variant of the cached kind at every moment of a run exactly when every
      kind that gets overwritten is below 128. */
  lemma OpcodeNamesKindIff(initial: nat, kinds: seq<nat>)
    requires forall i :: 0 <= i < |kinds| ==> kinds[i] < 250
    ensures (forall n :: 0 <= n <= |kinds| ==>
             OpcodeAfter(initial, kinds[..n]) == VariantOpcode(initial, LastKind(kinds[..n])))
            <==> (forall i :: 0 <= i < |kinds| - 1 ==> kinds[i] < 128)
  {
    hide OpcodeAfter, VariantOpcode;
    forall n | 0 <= n <= |kinds| ensures
      OpcodeAfter(initial, kinds[..n])
          == (VariantOpcode(initial, LastKind(kinds[..n])) + 256 * Misread(kinds[..n])) % OPCODES
    {
      OpcodeDrift(initial, kinds[..n]);
    }
    if forall i :: 0 <= i < |kinds| - 1 ==> kinds[i] < 128 {
      forall n | 0 <= n <= |kinds| ensures OpcodeAfter(initial, kinds[..n])
          == VariantOpcode(initial, LastKind(kinds[..n])) {
        MisreadZero(kinds[..n]);
        VariantRange(initial, LastKind(kinds[..n]));
      }
    } else {
      var i := FirstMisread(kinds, 0);
      var run := kinds[..i + 2];
      OneMisread(kinds, i);
      VariantRange(initial, LastKind(run));
      assert OpcodeAfter(initial, run) != VariantOpcode(initial, LastKind(run));
    }
  }

  lemma VariantRange(initial: nat, kind: nat)
    ensures 0 <= VariantOpcode(initial, kind) < OPCODES
  {
  }

  lemma {:induction false} FirstMisread(kinds: seq<nat>, from: nat) returns (i: nat)
    requires forall j :: 0 <= j < from ==> j < |kinds| && kinds[j] < 128
    requires !(forall j :: 0 <= j < |kinds| - 1 ==> kinds[j] < 128)
    ensures i < |kinds| - 1 && kinds[i] >= 128 && forall j :: 0 <= j < i ==> kinds[j] < 128
    decreases |kinds| - from
  {
    if from < |kinds| && kinds[from] >= 128 {
      i := from;
    } else {
      i := FirstMisread(kinds, from + 1);
    }
  }

  lemma OneMisread(kinds: seq<nat>, i: nat)
    requires i < |kinds| - 1 && kinds[i] >= 128 && forall j :: 0 <= j < i ==> kinds[j] < 128
    ensures Misread(kinds[..i + 2]) == 1
  {
    var run := kinds[..i + 2];
    assert run[..i + 1] == kinds[..i + 1];
    MisreadZero(kinds[..i + 1]);
  }

  /** A run in which the fused opcode goes wrong, for any opcode: kind 128 is cached, then replaced
      by kind 0. */
  lemma OpcodeGoesWrong(initial: nat)
    ensures OpcodeAfter(initial, [128, 0]) != VariantOpcode(initial, 0)
    ensures OpcodeAfter(initial, [128, 0]) == (VariantOpcode(initial, 0) + 256) % OPCODES
  {
    hide OpcodeAfter, VariantOpcode;
    assert [128, 0][..2] == [128, 0];
    OneMisread([128, 0], 0);
    OpcodeDrift(initial, [128, 0]);
    VariantRange(initial, 0);
  }
}
