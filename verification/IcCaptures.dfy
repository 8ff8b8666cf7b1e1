/** The state of one inline-cache entry and how an effect wrapper rebuilds the lambda's capture
    struct from it: captures defined in the IC body come back from the packed state or as
    specialized constants, captures of the main function are taken fresh. */
module IcCaptures {
  import opened Wrappers
  import opened Arith
  import opened Words
  import opened IcSpecialization

  /** A capture kept in the packed state: its place in the capture struct and its size in bytes. */
  datatype Local = Local(ord: nat, size: nat)

  /** One effect lambda. `locals` are the body captures that are stored, `mains` the places of the
      captures that come from the main function, `width` the number of members of the struct. */
  datatype Effect = Effect(specs: seq<Spec>, locals: seq<Local>, mains: seq<nat>, width: nat)
  {
    ghost predicate Valid()
    {
      && ValidSpecs(specs)
      && (forall i, j :: 0 <= i < j < |mains| ==> mains[i] != mains[j])
      && (forall i :: 0 <= i < |mains| ==> mains[i] < width)
      && (forall i :: 0 <= i < |locals| ==> locals[i].ord < width && locals[i].ord !in mains)
      && (forall i :: 0 <= i < |specs| ==> specs[i].ord < width && specs[i].ord !in mains)
      // a capture is from the main function, or stored, or never stored because fully covered
      && (forall p :: 0 <= p < width ==> p in mains || StoredAt(p) || CoveredAt(p))
    }

    /** What the JIT asks for: every stored capture fits a 64-bit word. */
    predicate InWords() { forall i :: 0 <= i < |locals| ==> locals[i].size <= 8 }

    ghost predicate StoredAt(p: nat) { exists i :: 0 <= i < |locals| && locals[i].ord == p }

    ghost predicate CoveredAt(p: nat) { exists i :: 0 <= i < |specs| && specs[i].ord == p && specs[i].isFullCoverage }

    /** `vals` gives the body captures by place; stored ones fit their size and fully covered ones
        are among the listed values. */
    ghost predicate Fits(vals: seq<int>)
    {
      && |vals| == width
      && (forall i :: 0 <= i < |locals| && locals[i].ord < width ==>
          0 <= vals[locals[i].ord] < Pow2(8 * locals[i].size))
      && (forall i :: 0 <= i < |specs| && specs[i].ord < width ==> specs[i].Accepts(vals[specs[i].ord]))
    }

    /** The values the ordinal is computed from. */
    function SpecArgs(vals: seq<int>): (args: seq<int>)
      requires |vals| == width && forall i :: 0 <= i < |specs| ==> specs[i].ord < width
      ensures |args| == |specs|
    {
      seq(|specs|, i requires 0 <= i < |specs| => vals[specs[i].ord])
    }
  }

  // ---------------------------------------------------------------- the struct the lambda must see

  function StoreAll(base: seq<int>, ords: seq<nat>, values: seq<int>): (st: seq<int>)
    requires |ords| == |values| && forall i :: 0 <= i < |ords| ==> ords[i] < |base|
    ensures |st| == |base|
    decreases |ords|
  {
    if |ords| == 0 then base
    else StoreAll(base, ords[..|ords| - 1], values[..|ords| - 1])[ords[|ords| - 1] := values[|ords| - 1]]
  }

  /** The capture struct built by the IC body itself: its own values, and the main function's. */
  function Capture(e: Effect, vals: seq<int>, mainVals: seq<int>): (st: seq<int>)
    requires |vals| == e.width && |mainVals| == |e.mains| && forall i :: 0 <= i < |e.mains| ==> e.mains[i] < e.width
    ensures |st| == e.width
  {
    StoreAll(vals, e.mains, mainVals)
  }

  lemma {:induction false} StoreAllAt(base: seq<int>, ords: seq<nat>, values: seq<int>)
    requires |ords| == |values| && forall i :: 0 <= i < |ords| ==> ords[i] < |base|
    requires forall i, j :: 0 <= i < j < |ords| ==> ords[i] != ords[j]
    ensures forall i :: 0 <= i < |ords| ==> StoreAll(base, ords, values)[ords[i]] == values[i]
    ensures forall p :: 0 <= p < |base| && p !in ords ==> StoreAll(base, ords, values)[p] == base[p]
    decreases |ords|
  {
    if |ords| != 0 {
      var n := |ords| - 1;
      StoreAllAt(base, ords[..n], values[..n]);
      assert ords == ords[..n] + [ords[n]];
    }
  }

  // ---------------------------------------------------------------- packed state

  function StateSize(locals: seq<Local>): nat
  {
    if |locals| == 0 then 0 else StateSize(locals[..|locals| - 1]) + locals[|locals| - 1].size
  }

  function Offset(locals: seq<Local>, i: nat): nat
    requires i <= |locals|
  {
    StateSize(locals[..i])
  }

  lemma OffsetStep(locals: seq<Local>, i: nat)
    requires i < |locals|
    ensures Offset(locals, i + 1) == Offset(locals, i) + locals[i].size
    ensures Offset(locals, 0) == 0 && Offset(locals, |locals|) == StateSize(locals)
  {
    assert locals[..i + 1][..i] == locals[..i] && locals[..|locals|] == locals;
  }

  lemma {:induction false} OffsetMonotone(locals: seq<Local>, i: nat, j: nat)
    requires i <= j <= |locals|
    ensures Offset(locals, i) <= Offset(locals, j)
  {
    if i < j {
      OffsetMonotone(locals, i, j - 1);
      OffsetStep(locals, j - 1);
    }
  }

  /** The state holds the stored captures one after the other, without padding. */
  ghost predicate Packed(locals: seq<Local>, vals: seq<int>, state: seq<u8>, n: nat)
  {
    && n <= |locals|
    && forall i :: 0 <= i < n ==>
      && Offset(locals, i) + locals[i].size <= |state|
      && locals[i].ord < |vals|
      && vals[locals[i].ord] >= 0
      && state[Offset(locals, i)..Offset(locals, i) + locals[i].size] == ToBytes(vals[locals[i].ord], locals[i].size)
  }

  /** The IC state encoder: one `memcpy` per stored capture. Bytes left over from another effect
      stay where they are. */
  method EncodeState(e: Effect, vals: seq<int>, state: array<u8>)
    requires e.Valid() && e.Fits(vals) && StateSize(e.locals) <= state.Length
    modifies state
    ensures Packed(e.locals, vals, state[..], |e.locals|)
  {
    hide Packed, Effect.Valid, Effect.Fits;
    NothingPacked(e.locals, vals, state[..]);
    for i := 0 to |e.locals|
      invariant Packed(e.locals, vals, state[..], i)
    {
      EncodeOne(e, vals, state, i);
    }
  }

  lemma NothingPacked(locals: seq<Local>, vals: seq<int>, state: seq<u8>)
    ensures Packed(locals, vals, state, 0)
  {
  }

  /** One `memcpy`: the captures before it stay where they are. */
  method EncodeOne(e: Effect, vals: seq<int>, state: array<u8>, i: nat)
    requires e.Valid() && e.Fits(vals) && StateSize(e.locals) <= state.Length && i < |e.locals|
    requires Packed(e.locals, vals, state[..], i)
    modifies state
    ensures Packed(e.locals, vals, state[..], i + 1)
  {
    hide ToBytes, Pow2, StateSize, Offset, Packed;
    OffsetStep(e.locals, i);
    OffsetMonotone(e.locals, i + 1, |e.locals|);
    var local, at := e.locals[i], Offset(e.locals, i);
    var bytes := ToBytes(vals[local.ord], local.size);
    ghost var before := state[..];
    forall j | 0 <= j < |bytes| {
      state[at + j] := bytes[j];
    }
    EarlierKept(e.locals, vals, before, state[..], i);
    assert state[..][at..at + local.size] == bytes;
    OneMorePacked(e.locals, vals, state[..], i);
  }

  lemma OneMorePacked(locals: seq<Local>, vals: seq<int>, state: seq<u8>, i: nat)
    requires i < |locals| && Packed(locals, vals, state, i)
    requires Offset(locals, i) + locals[i].size <= |state| && locals[i].ord < |vals| && vals[locals[i].ord] >= 0
    requires state[Offset(locals, i)..Offset(locals, i) + locals[i].size]
        == ToBytes(vals[locals[i].ord], locals[i].size)
    ensures Packed(locals, vals, state, i + 1)
  {
    hide ToBytes, StateSize, Offset;
  }

  lemma EarlierKept(locals: seq<Local>, vals: seq<int>, before: seq<u8>, after: seq<u8>, n: nat)
    requires n < |locals| && Packed(locals, vals, before, n) && |before| == |after|
    requires forall j :: 0 <= j < |after| && j < Offset(locals, n) ==> after[j] == before[j]
    ensures Packed(locals, vals, after, n)
  {
    hide ToBytes, StateSize, Offset;
    forall i | 0 <= i < n
      ensures Offset(locals, i) + locals[i].size <= |after|
      ensures after[Offset(locals, i)..Offset(locals, i) + locals[i].size]
          == ToBytes(vals[locals[i].ord], locals[i].size)
    {
      OffsetStep(locals, i);
      OffsetMonotone(locals, i + 1, n);
      var a, b := Offset(locals, i), Offset(locals, i) + locals[i].size;
      assert after[a..b] == before[a..b];
    }
  }

  /** The places of the struct written so far hold what the lambda must see. */
  ghost predicate Right(st: seq<int>, target: seq<int>, written: iset<int>)
  {
    |st| == |target| && forall p :: 0 <= p < |st| && p in written ==> st[p] == target[p]
  }

  /** The IC state decoder: decoding what was encoded gives the values back. */
  method DecodeState(e: Effect, state: seq<u8>, st: array<int>, ghost vals: seq<int>)
    requires e.Valid() && e.Fits(vals) && Packed(e.locals, vals, state, |e.locals|)
    requires st.Length == e.width
    modifies st
    ensures forall i :: 0 <= i < |e.locals| ==> st[e.locals[i].ord] == vals[e.locals[i].ord]
  {
    hide ToBytes, LittleEndian, Pow2, StateSize;
    for i := 0 to |e.locals|
      invariant forall j :: 0 <= j < i ==> st[e.locals[j].ord] == vals[e.locals[j].ord]
    {
      OffsetStep(e.locals, i);
      var at := Offset(e.locals, i);
      var v := LittleEndian(state[at..at + e.locals[i].size]);
      LittleEndianOfBytes(vals[e.locals[i].ord], e.locals[i].size);
      st[e.locals[i].ord] := v;
    }
  }

  // ---------------------------------------------------------------- the effect wrapper

  /** One generated wrapper: decode the state, store the main function's values, then store the
      constants of this specialization. The struct starts out undefined. */
  method RebuildCapture(e: Effect, specializationOrd: nat, state: seq<u8>, mainVals: seq<int>,
                        undefinedStruct: seq<int>, ghost vals: seq<int>)
    returns (capture: seq<int>)
    requires e.Valid() && e.Fits(vals) && Packed(e.locals, vals, state, |e.locals|)
    requires specializationOrd == OrdinalFor(e.specs, e.SpecArgs(vals))
    requires |mainVals| == |e.mains| && |undefinedStruct| == e.width
    ensures capture == Capture(e, vals, mainVals)
  {
    hide OrdinalFor, Packed, Combinations, Digits;
    ghost var target := Capture(e, vals, mainVals);
    TargetAt(e, vals, mainVals);
    var st := new int[e.width](i requires 0 <= i < |undefinedStruct| => undefinedStruct[i]);
    DecodeState(e, state, st, vals);
    ghost var stored := iset p | 0 <= p < e.width && e.StoredAt(p);
    assert Right(st[..], target, stored);
    StoreMains(e, mainVals, st, target, stored);
    DecodeComputedOrdinal(e.specs, e.SpecArgs(vals));
    var choices := DecodeOrdinal(e.specs, specializationOrd);
    StoreConstants(e, choices, st, target, stored, vals);
    capture := st[..];
    AllWritten(e, capture, target, stored);
  }

  /** The values burnt into a JIT stub, one 64-bit word per stored capture. */
  function Immediates(e: Effect, vals: seq<int>): (imms: seq<int>)
    requires |vals| == e.width && forall i :: 0 <= i < |e.locals| ==> e.locals[i].ord < e.width
    ensures |imms| == |e.locals|
  {
    seq(|e.locals|, i requires 0 <= i < |e.locals| => vals[e.locals[i].ord])
  }

  lemma ImmediatesAreWords(e: Effect, vals: seq<int>)
    requires e.Valid() && e.Fits(vals) && e.InWords()
    ensures forall i :: 0 <= i < |e.locals| ==> 0 <= Immediates(e, vals)[i] < TWO64
  {
    hide Pow2;
    forall i | 0 <= i < |e.locals| ensures 0 <= Immediates(e, vals)[i] < TWO64 {
      PowerOfBytes(e.locals[i].size);
    }
  }

  lemma PowerOfBytes(size: nat)
    requires size <= 8
    ensures Pow2(8 * size) <= TWO64
  {
    hide Pow2;
    Pow2Values();
    Pow2Add(8 * size, 64 - 8 * size);
    MulAtLeast(Pow2(64 - 8 * size), Pow2(8 * size));
    assert Pow2(64 - 8 * size) * Pow2(8 * size) == Pow2(8 * size) * Pow2(64 - 8 * size);
  }

  /** The wrapper inside a JIT stub: the decoder stores immediates, truncated to the capture's size. */
  method RebuildFromImmediates(e: Effect, specializationOrd: nat, imms: seq<int>, mainVals: seq<int>,
                               undefinedStruct: seq<int>, ghost vals: seq<int>)
    returns (capture: seq<int>)
    requires e.Valid() && e.Fits(vals) && imms == Immediates(e, vals)
    requires specializationOrd == OrdinalFor(e.specs, e.SpecArgs(vals))
    requires |mainVals| == |e.mains| && |undefinedStruct| == e.width
    ensures capture == Capture(e, vals, mainVals)
  {
    hide OrdinalFor, Combinations, Digits, Pow2;
    ghost var target := Capture(e, vals, mainVals);
    TargetAt(e, vals, mainVals);
    var st := new int[e.width](i requires 0 <= i < |undefinedStruct| => undefinedStruct[i]);
    for i := 0 to |e.locals|
      invariant forall j :: 0 <= j < i ==> st[e.locals[j].ord] == vals[e.locals[j].ord]
    {
      Untruncated(imms[i], Pow2(8 * e.locals[i].size));
      st[e.locals[i].ord] := imms[i] % Pow2(8 * e.locals[i].size);
    }
    ghost var stored := iset p | 0 <= p < e.width && e.StoredAt(p);
    assert Right(st[..], target, stored);
    StoreMains(e, mainVals, st, target, stored);
    DecodeComputedOrdinal(e.specs, e.SpecArgs(vals));
    var choices := DecodeOrdinal(e.specs, specializationOrd);
    StoreConstants(e, choices, st, target, stored, vals);
    capture := st[..];
    AllWritten(e, capture, target, stored);
  }

  lemma Untruncated(v: int, m: int)
    requires 0 <= v < m
    ensures v % m == v
  {
    DivModUnique(v, m, 0, v);
  }

  lemma TargetAt(e: Effect, vals: seq<int>, mainVals: seq<int>)
    requires e.Valid() && |vals| == e.width && |mainVals| == |e.mains|
    ensures
      var target := Capture(e, vals, mainVals);
      && (forall i :: 0 <= i < |e.mains| ==> target[e.mains[i]] == mainVals[i])
      && (forall p :: 0 <= p < e.width && p !in e.mains ==> target[p] == vals[p])
  {
    StoreAllAt(vals, e.mains, mainVals);
  }

  method StoreMains(e: Effect, mainVals: seq<int>, st: array<int>, ghost target: seq<int>, ghost written: iset<int>)
    requires e.Valid() && st.Length == e.width == |target| && |mainVals| == |e.mains|
    requires forall i :: 0 <= i < |e.mains| ==> target[e.mains[i]] == mainVals[i]
    requires Right(st[..], target, written)
    modifies st
    ensures Right(st[..], target, written)
    ensures forall i :: 0 <= i < |e.mains| ==> st[e.mains[i]] == target[e.mains[i]]
  {
    for i := 0 to |e.mains|
      invariant Right(st[..], target, written)
      invariant forall j :: 0 <= j < i ==> st[e.mains[j]] == target[e.mains[j]]
    {
      st[e.mains[i]] := mainVals[i];
    }
  }

  /** Constants overwrite what was decoded, and supply what was never stored. */
  method StoreConstants(e: Effect, choices: seq<Option<int>>, st: array<int>, ghost target: seq<int>,
                        ghost written: iset<int>, ghost vals: seq<int>)
    requires e.Valid() && e.Fits(vals) && st.Length == e.width == |target| && |choices| == |e.specs|
    requires forall i :: 0 <= i < |e.specs| ==> choices[i] == ChoiceFor(e.specs[i], vals[e.specs[i].ord])
    requires forall p :: 0 <= p < e.width && p !in e.mains ==> target[p] == vals[p]
    requires Right(st[..], target, written)
    requires forall i :: 0 <= i < |e.mains| ==> st[e.mains[i]] == target[e.mains[i]]
    modifies st
    ensures Right(st[..], target, written)
    ensures forall i :: 0 <= i < |e.mains| ==> st[e.mains[i]] == target[e.mains[i]]
    ensures forall i :: 0 <= i < |e.specs| && choices[i].Some? ==> st[e.specs[i].ord] == target[e.specs[i].ord]
  {
    for i := 0 to |e.specs|
      invariant Right(st[..], target, written)
      invariant forall j :: 0 <= j < |e.mains| ==> st[e.mains[j]] == target[e.mains[j]]
      invariant forall j :: 0 <= j < i && choices[j].Some? ==> st[e.specs[j].ord] == target[e.specs[j].ord]
    {
      if choices[i].None? { continue; }
      st[e.specs[i].ord] := choices[i].value;
    }
  }

  lemma AllWritten(e: Effect, st: seq<int>, target: seq<int>, stored: iset<int>)
    requires e.Valid() && |target| == e.width && Right(st, target, stored)
    requires stored == iset p | 0 <= p < e.width && e.StoredAt(p)
    requires forall i :: 0 <= i < |e.mains| ==> st[e.mains[i]] == target[e.mains[i]]
    requires forall i :: 0 <= i < |e.specs| && e.specs[i].isFullCoverage ==>
        st[e.specs[i].ord] == target[e.specs[i].ord]
    ensures st == target
  {
    forall p | 0 <= p < e.width ensures st[p] == target[p] {
      if p in e.mains {
      } else if e.StoredAt(p) {
      } else {
        assert e.CoveredAt(p);
      }
    }
  }
}
