/** The interpreter's inline cache: one entry, overwritten on every cacheable miss. */
module InterpreterIc {
  import opened Wrappers
  import opened Arith
  import opened Words
  import opened IcSpecialization
  import opened IcCaptures
  import opened IcSite
  import opened OpcodeFusion

  class Cache<!W, !R> {
    const site: Site<W, R>
    /** The key value that never occurs, if the author named one. */
    const impossible: Option<int>
    /** Whether the effect kind is also encoded in the opcode, and the opcode of the empty cache. */
    const fused: bool
    const initialOpcode: nat

    var key: int
    var effectKind: nat
    const state: array<u8>
    var opcode: nat

    /** The cached effect and body values, if there is an entry. */
    ghost var entry: Option<(nat, seq<int>)>

    /** With one effect and an impossible key, the kind says nothing and is left out. */
    predicate Elided() { Total(site.AllSpecs()) == 1 && impossible.Some? }

    ghost predicate Configured()
    {
      && site.Valid()
      && !(fused && Elided())
      && (fused ==> initialOpcode + 1 + Total(site.AllSpecs()) <= OPCODES)
      && forall i :: 0 <= i < |site.effects| ==> StateSize(site.effects[i].locals) <= state.Length
    }

    ghost predicate EntryHeld(e: nat, vals: seq<int>)
      requires Configured()
      reads this, state
    {
      && e < |site.effects|
      && site.effects[e].Fits(vals)
      && Packed(site.effects[e].locals, vals, state[..], |site.effects[e].locals|)
      && impossible != Some(key)
      && (!Elided() ==> effectKind == KindOf(site, e, vals))
    }

    /** The key in the cache, if there is an entry. */
    ghost function Held(): Option<int>
      reads this
    {
      if entry.Some? then Some(key) else None
    }

    /** `inputs` and `w` are the rest of the run. */
    ghost predicate Valid(inputs: seq<Input>, w: W)
      reads this, state
    {
      && Configured()
      && (entry.None? ==>
           && (impossible.Some? ==> key == impossible.value)
           && effectKind == NO_KIND)
      && (entry.Some? ==>
           && EntryHeld(entry.value.0, entry.value.1)
           && Constant(site, key, entry.value.0, entry.value.1, inputs, w))
    }

    /** The opcode of a fused site names the variant of the cached kind. */
    predicate OpcodeRight()
      reads this
    {
      fused ==> opcode == VariantOpcode(initialOpcode, effectKind)
    }

    /** Without an impossible value the key of a new site is whatever the memory held. */
    constructor (site: Site<W, R>, impossible: Option<int>, fused: bool, initialOpcode: nat, memory: int,
                 stateBytes: nat)
      requires site.Valid()
      requires fused ==> initialOpcode + 1 + Total(site.AllSpecs()) <= OPCODES
      requires !(fused && Total(site.AllSpecs()) == 1 && impossible.Some?)
      requires forall i :: 0 <= i < |site.effects| ==> StateSize(site.effects[i].locals) <= stateBytes
      ensures (forall inputs, w :: Valid(inputs, w)) && OpcodeRight()
      ensures this.site == site && this.impossible == impossible && fresh(state)
      ensures this.fused == fused && this.initialOpcode == initialOpcode && entry == None && effectKind == NO_KIND
    {
      this.site, this.impossible, this.fused, this.initialOpcode := site, impossible, fused, initialOpcode;
      key := if impossible.Some? then impossible.value else memory;
      effectKind := 255;
      state := new u8[stateBytes];
      opcode := initialOpcode;
      entry := None;
    }

    /** Whether an execution puts a new entry into the cache. */
    ghost predicate Installs(input: Input, w: W)
      reads this
    {
      site.body(input, w).Run? && site.body(input, w).cacheable && Held() != Some(input.key)
    }

    /** One execution, started with the right opcode, returns what running the body would, installs
        an entry exactly on a cacheable miss, and leaves the cache right for the rest of the run;
        the opcode stays right exactly if no kind of 128 or more was overwritten. */
    method Execute(input: Input, w: W, ghost rest: seq<Input>, undefinedStruct: nat -> seq<int>)
      returns (r: R, w': W)
      requires Valid([input] + rest, w) && OpcodeRight() && Respects(site, impossible, [input] + rest, w)
      requires forall n: nat :: |undefinedStruct(n)| == n
      modifies this, state
      ensures (r, w') == TrivialStep(site, input, w)
      ensures Valid(rest, w')
      ensures
        var o := site.body(input, w);
        var installs := o.Run? && o.cacheable && !(old(entry).Some? && old(key) == input.key);
        && (OpcodeRight() <==> !(fused && installs && old(effectKind) != 255 && old(effectKind) >= 128))
        && if installs then
             && key == input.key && entry == Some((o.effect, o.vals))
             && (Elided() || effectKind == KindOf(site, o.effect, o.vals))
           else key == old(key) && entry == old(entry) && effectKind == old(effectKind)
    {
      hide Constant, Respects, TrivialStep, TrivialRun;
      StepFacts(site, impossible, input, rest, w);
      var hit, kind := Lookup(input);
      if hit {
        assert entry.Some? && key == input.key;
        r, w' := RunCached(input, w, kind, rest, undefinedStruct);
      } else {
        r, w' := RunBody(input, w, rest);
      }
    }

    /** What the hit check may rely on. */
    ghost predicate Checkable()
      reads this, state
    {
      && Configured()
      && (entry.None? ==> (impossible.Some? ==> key == impossible.value) && effectKind == NO_KIND)
      && (entry.Some? ==> EntryHeld(entry.value.0, entry.value.1))
      && OpcodeRight()
    }

    method Lookup(input: Input) returns (hit: bool, kind: nat)
      requires Checkable() && impossible != Some(input.key)
      ensures hit <==> entry.Some? && key == input.key
      ensures hit ==> kind == KindOf(site, entry.value.0, entry.value.1)
    {
      hide Packed, Effect.Valid, Effect.Fits, Combinations, OrdinalFor, Total, VariantOpcode;
      kind := 0;
      if fused {
        hit, kind := LookupFused(input);
      } else if key != input.key {
        hit := false;
      } else if Elided() {
        hit := true;
        ElidedKind(site, entry.value.0, entry.value.1);
      } else {
        if entry.Some? { KindInRange(site, entry.value.0, entry.value.1); }
        kind := effectKind;
        hit := kind < Total(site.AllSpecs());
        // with an impossible value the default case of the switch is unreachable
        assert impossible.Some? ==> hit;
      }
    }

    /** A fused site knows the kind from its opcode, and the initial opcode never hits. */
    method LookupFused(input: Input) returns (hit: bool, kind: nat)
      requires Checkable() && fused
      ensures hit <==> entry.Some? && key == input.key
      ensures hit ==> kind == KindOf(site, entry.value.0, entry.value.1)
    {
      hide Packed, Effect.Valid, Effect.Fits, Combinations, OrdinalFor, Total, VariantOpcode;
      if entry.Some? { KindInRange(site, entry.value.0, entry.value.1); }
      VariantInRange(initialOpcode, effectKind, Total(site.AllSpecs()));
      assert initialOpcode <= opcode <= initialOpcode + Total(site.AllSpecs());
      if opcode == initialOpcode { return false, 0; }
      kind := opcode - initialOpcode - 1;
      hit := key == input.key;
    }

    /** The hit path: the wrapper chosen by the kind rebuilds the capture and runs the effect. */
    method RunCached(input: Input, w: W, kind: nat, ghost rest: seq<Input>, undefinedStruct: nat -> seq<int>)
      returns (r: R, w': W)
      requires Valid([input] + rest, w) && entry.Some? && key == input.key
      requires kind == KindOf(site, entry.value.0, entry.value.1)
      requires site.ValidInput(input) && site.ValidOutcome(site.body(input, w))
      requires forall n: nat :: |undefinedStruct(n)| == n
      ensures (r, w') == TrivialStep(site, input, w)
      ensures Valid(rest, w')
    {
      hide Combinations, OrdinalFor, Packed, Effect.Valid, Effect.Fits;
      ghost var (e0, vals) := entry.value;
      assert ([input] + rest)[0] == input && ([input] + rest)[1..] == rest;
      KindInRange(site, e0, vals);
      var e := FindEffect(site, kind);
      SameBlock(site, kind, e, e0);
      var effect := site.effects[e];
      var capture := RebuildCapture(effect, kind - Start(site.AllSpecs(), e), state[..], input.mains[e],
                                    undefinedStruct(effect.width), vals);
      SameCapture(effect, site.body(input, w).vals, vals, input.mains[e]);
      var result := site.lambda(e, capture, w);
      r, w' := result.0, result.1;
    }

    /** The miss path: run the body; if it calls an effect and is cacheable, overwrite the entry. */
    method RunBody(input: Input, w: W, ghost rest: seq<Input>) returns (r: R, w': W)
      requires Valid([input] + rest, w)
      requires site.ValidInput(input) && site.ValidOutcome(site.body(input, w)) && impossible != Some(input.key)
      requires
        var o := site.body(input, w);
        o.Run? && o.cacheable ==> Constant(site, input.key, o.effect, o.vals, rest, TrivialStep(site, input, w).1)
      requires OpcodeRight() && Held() != Some(input.key)
      modifies this, state
      ensures (r, w') == TrivialStep(site, input, w)
      ensures Valid(rest, w')
      ensures
        var o := site.body(input, w);
        var installs := o.Run? && o.cacheable && !(old(entry).Some? && old(key) == input.key);
        && (OpcodeRight() <==> !(fused && installs && old(effectKind) != 255 && old(effectKind) >= 128))
        && if installs then
             && key == input.key && entry == Some((o.effect, o.vals))
             && (Elided() || effectKind == KindOf(site, o.effect, o.vals))
           else key == old(key) && entry == old(entry) && effectKind == old(effectKind)
    {
      hide Combinations, OrdinalFor, Packed, Effect.Valid, Effect.Fits, UpdateOpcode, VariantOpcode;
      assert ([input] + rest)[0] == input && ([input] + rest)[1..] == rest;
      match site.body(input, w)
      case NoEffect(result, w1) =>
        r, w' := result, w1;
      case Run(e, vals, cacheable, w1) =>
        if cacheable {
          if entry.Some? { KindInRange(site, entry.value.0, entry.value.1); }
          KindInRange(site, e, vals);
          if fused { FusedUpdateIff(initialOpcode, effectKind, KindOf(site, e, vals)); }
          CreateEntry(input.key, e, vals);
        }
        EffectShape(site, e, vals);
        var result := site.lambda(e, Capture(site.effects[e], vals, input.mains[e]), w1);
        r, w' := result.0, result.1;
    }

    method CreateEntry(newKey: int, e: nat, vals: seq<int>)
      requires Configured() && e < |site.effects| && site.effects[e].Fits(vals) && impossible != Some(newKey)
      modifies this, state
      ensures key == newKey && entry == Some((e, vals)) && EntryHeld(e, vals)
      ensures fused ==> opcode == UpdateOpcode(old(opcode), old(effectKind), effectKind)
      ensures Configured()
    {
      hide Combinations, OrdinalFor, Packed;
      key := newKey;
      KindInRange(site, e, vals);
      if !Elided() {
        var effect := site.effects[e];
        ArgumentsOf(effect, vals);
        var newKind := ComputeOrdinal(effect.specs, effect.SpecArgs(vals), Start(site.AllSpecs(), e));
        var oldKind := effectKind;
        effectKind := newKind;
        if fused {
          opcode := UpdateOpcode(opcode, oldKind, newKind);
        }
      }
      EncodeState(site.effects[e], vals, state);
      entry := Some((e, vals));
    }
  }

  // ---------------------------------------------------------------- kinds

  lemma ElidedKind<W, R>(s: Site<W, R>, e: nat, vals: seq<int>)
    requires s.Valid() && e < |s.effects| && s.effects[e].Fits(vals) && Total(s.AllSpecs()) == 1
    ensures KindOf(s, e, vals) == 0
  {
    KindInRange(s, e, vals);
  }

  /** The switch over kinds: which effect a kind belongs to. */
  method FindEffect<W, R>(s: Site<W, R>, kind: nat) returns (e: nat)
    requires s.Valid() && kind < Total(s.AllSpecs())
    ensures e < |s.effects| && InBlock(s.AllSpecs(), kind, e)
  {
    hide Combinations, Start, Effect.Valid;
    var specs := s.AllSpecs();
    NextStart(specs, 0);
    e := 0;
    var end := Combinations(s.effects[0].specs);
    while kind >= end
      invariant e < |s.effects| && end == Start(specs, e + 1) && kind >= Start(specs, e)
      decreases |s.effects| - e
    {
      e := e + 1;
      assert e < |s.effects|;
      NextStart(specs, e);
      end := end + Combinations(s.effects[e].specs);
    }
    NextStart(specs, e);
  }

  lemma NextStart(specs: seq<seq<Spec>>, e: nat)
    requires e < |specs|
    ensures Start(specs, 0) == 0 && Start(specs, e + 1) == Start(specs, e) + Combinations(specs[e])
  {
  }

  lemma SameBlock<W, R>(s: Site<W, R>, kind: nat, e: nat, f: nat)
    requires s.Valid() && e < |s.effects| && f < |s.effects|
    requires InBlock(s.AllSpecs(), kind, e) && InBlock(s.AllSpecs(), kind, f)
    ensures e == f
  {
    hide Combinations;
    if e < f { StartsAscend(s.AllSpecs(), e, f); }
    if f < e { StartsAscend(s.AllSpecs(), f, e); }
  }

  lemma VariantInRange(initial: nat, kind: nat, total: nat)
    requires initial + 1 + total <= OPCODES && (kind == NO_KIND || kind < total) && total < 250
    ensures VariantOpcode(initial, kind) == if kind == NO_KIND then initial else initial + 1 + kind
  {
  }

  /** An update takes the opcode from variant to variant exactly if the old kind is below 128. */
  lemma FusedUpdateIff(initial: nat, oldKind: nat, newKind: nat)
    requires oldKind == NO_KIND || oldKind < 250
    requires newKind < 250
    ensures UpdateOpcode(VariantOpcode(initial, oldKind), oldKind, newKind) == VariantOpcode(initial, newKind)
            <==> oldKind == NO_KIND || oldKind < 128
  {
    if oldKind == NO_KIND {
      WrapSum16(initial, 1 + newKind);
    } else if oldKind < 128 {
      WrapSum16(initial + 1 + oldKind, newKind - oldKind);
    } else {
      WrapSum16(initial + 1 + oldKind, newKind - oldKind + 256);
      Shifted(initial + 1 + newKind);
    }
  }

  lemma Shifted(x: nat)
    ensures (x + 256) % OPCODES != x % OPCODES
  {
    var q, r := x / OPCODES, x % OPCODES;
    if r + 256 < OPCODES {
      DivModUnique(x + 256, OPCODES, q, r + 256);
    } else {
      DivModUnique(x + 256, OPCODES, q + 1, r + 256 - OPCODES);
    }
  }

  // ---------------------------------------------------------------- whole runs

  /** Every kind that gets overwritten is below 128. */
  predicate SmallWhenOverwritten(kinds: seq<nat>) { forall i :: 0 <= i < |kinds| - 1 ==> kinds[i] < 128 }

  /** With at most 128 kinds there is nothing to check. */
  lemma {:induction false} FewKindsAreSmall<W, R>(s: Site<W, R>, impossible: Option<int>, have: Option<int>,
                                                  inputs: seq<Input>, w: W)
    requires s.Valid() && Respects(s, impossible, inputs, w) && Total(s.AllSpecs()) <= 128
    ensures forall i :: 0 <= i < |Installed(s, impossible, have, inputs, w)| ==>
        Installed(s, impossible, have, inputs, w)[i] < 128
    decreases |inputs|
  {
    hide Constant, TrivialStep, KindOf, Total;
    if |inputs| > 0 {
      var o, next := s.body(inputs[0], w), TrivialStep(s, inputs[0], w).1;
      if o.Run? && o.cacheable && have != Some(inputs[0].key) {
        KindInRange(s, o.effect, o.vals);
        FewKindsAreSmall(s, impossible, Some(inputs[0].key), inputs[1..], next);
      } else {
        FewKindsAreSmall(s, impossible, have, inputs[1..], next);
      }
    }
  }

  /** Where a run stands, as long as the opcode is right: what was installed so far, and what is
      still to come. */
  ghost predicate Tracks<W, R>(cache: Cache<W, R>, done: seq<nat>, all: seq<nat>, inputs: seq<Input>, w: W)
    reads cache, cache.state
  {
    && cache.Valid(inputs, w) && cache.OpcodeRight()
    && cache.site.Valid() && !(cache.fused && cache.Elided())
    && Respects(cache.site, cache.impossible, inputs, w)
    && all == done + Installed(cache.site, cache.impossible, cache.Held(), inputs, w)
    && (cache.fused ==> SmallWhenOverwritten(done))
    && (cache.entry.None? <==> done == [])
    && (cache.Elided() || cache.effectKind == LastKind(done))
  }

  /** One execution of a run: either the run goes on, or it has overwritten a kind it must not. */
  method RunStep<W, R>(cache: Cache<W, R>, input: Input, w: W, undefinedStruct: nat -> seq<int>,
                       ghost rest: seq<Input>, ghost done: seq<nat>, ghost all: seq<nat>)
    returns (r: R, w': W, ghost done': seq<nat>)
    requires Tracks(cache, done, all, [input] + rest, w)
    requires forall n: nat :: |undefinedStruct(n)| == n
    modifies cache, cache.state
    ensures cache.OpcodeRight() ==> Tracks(cache, done', all, rest, w')
    ensures !cache.OpcodeRight() ==> cache.fused && !SmallWhenOverwritten(all)
    ensures Respects(cache.site, cache.impossible, rest, w')
    ensures TrivialRun(cache.site, cache.impossible, [input] + rest, w)
            == [r] + TrivialRun(cache.site, cache.impossible, rest, w')
  {
    hide Respects, TrivialRun, Installed, TrivialStep, Constant, KindOf, Total, SmallWhenOverwritten, VariantOpcode;
    hide Cache.Valid, Cache.Elided, Site.Valid, Site.ValidInput;
    StepFacts(cache.site, cache.impossible, input, rest, w);
    InstalledStep(cache.site, cache.impossible, cache.Held(), input, rest, w);
    if !cache.Elided() { NoKindWhenEmpty(cache, [input] + rest, w); }
    ghost var o := cache.site.body(input, w);
    ghost var next := TrivialStep(cache.site, input, w).1;
    ghost var held := cache.Held();
    done' := done;
    if cache.Installs(input, w) {
      done', held := done + [KindOf(cache.site, o.effect, o.vals)], Some(input.key);
      Overwritten(done, KindOf(cache.site, o.effect, o.vals), all);
    }
    assert all == done' + Installed(cache.site, cache.impossible, held, rest, next);
    r, w' := cache.Execute(input, w, rest, undefinedStruct);
    assert w' == next && cache.Held() == held;
  }

  lemma NoKindWhenEmpty<W, R>(cache: Cache<W, R>, inputs: seq<Input>, w: W)
    requires cache.Valid(inputs, w) && !cache.Elided()
    ensures cache.effectKind == NO_KIND <==> cache.entry.None?
  {
    hide KindOf, Total, Constant;
    if cache.entry.Some? { KindInRange(cache.site, cache.entry.value.0, cache.entry.value.1); }
  }

  /** One more installed kind: the one it overwrites decides. */
  lemma Overwritten(done: seq<nat>, k: nat, all: seq<nat>)
    requires |done| < |all| && done + [k] == all[..|done| + 1]
    ensures done != [] && LastKind(done) >= 128 ==> !SmallWhenOverwritten(all)
    ensures SmallWhenOverwritten(done) && (done == [] || LastKind(done) < 128) ==> SmallWhenOverwritten(done + [k])
  {
    var prefix := all[..|done| + 1];
    if done != [] {
      assert prefix[|done| - 1] == all[|done| - 1];
      assert (done + [k])[|done| - 1] == done[|done| - 1];
    }
  }

  /** Every run of executions returns the results of trivial lowering, in every configuration:
      with or without an impossible key, effect kind stored or left out, fused into the opcode or
      not; at the end the cache holds the kind installed last. A fused run is followed for as long
      as its opcode is right: to the end with the right opcode if every kind it overwrites is below
      128, and otherwise to the execution after which the opcode is wrong. */
  method RunCache<W, R>(site: Site<W, R>, impossible: Option<int>, fused: bool, initialOpcode: nat,
                        inputs: seq<Input>, w0: W, memory: int, stateBytes: nat, undefinedStruct: nat -> seq<int>)
    returns (results: seq<R>, kind: nat, opcode: nat)
    requires site.Valid() && Respects(site, impossible, inputs, w0)
    requires fused ==> initialOpcode + 1 + Total(site.AllSpecs()) <= OPCODES
    requires !(fused && Total(site.AllSpecs()) == 1 && impossible.Some?)
    requires forall i :: 0 <= i < |site.effects| ==> StateSize(site.effects[i].locals) <= stateBytes
    requires forall n: nat :: |undefinedStruct(n)| == n
    ensures results <= TrivialRun(site, impossible, inputs, w0)
    ensures
      var kinds := Installed(site, impossible, None, inputs, w0);
      if fused && !SmallWhenOverwritten(kinds) then opcode != VariantOpcode(initialOpcode, kind)
      else
        && results == TrivialRun(site, impossible, inputs, w0)
        && (Total(site.AllSpecs()) > 1 || impossible.None? ==> kind == LastKind(kinds))
        && (fused ==> opcode == VariantOpcode(initialOpcode, kind))
  {
    hide Respects, TrivialRun, Installed, TrivialStep, Constant, Total, SmallWhenOverwritten, StateSize, Tracks;
    hide VariantOpcode;
    var cache := new Cache(site, impossible, fused, initialOpcode, memory, stateBytes);
    results := [];
    var w := w0;
    ghost var done, all := [], Installed(site, impossible, None, inputs, w0);
    assert inputs[0..] == inputs;
    TracksStart(cache, all, inputs, w0);
    for i := 0 to |inputs|
      invariant fresh(cache) && fresh(cache.state) && cache.site == site && cache.impossible == impossible
      invariant cache.fused == fused && cache.initialOpcode == initialOpcode
      invariant Tracks(cache, done, all, inputs[i..], w) && Respects(site, impossible, inputs[i..], w)
      invariant results + TrivialRun(site, impossible, inputs[i..], w) == TrivialRun(site, impossible, inputs, w0)
    {
      assert inputs[i..] == [inputs[i]] + inputs[i + 1..];
      var r, w1, done1 := RunStep(cache, inputs[i], w, undefinedStruct, inputs[i + 1..], done, all);
      results := results + [r];
      if !cache.OpcodeRight() { return results, cache.effectKind, cache.opcode; }
      w, done := w1, done1;
    }
    assert inputs[|inputs|..] == [];
    TracksEnd(cache, done, all, w);
    kind, opcode := cache.effectKind, cache.opcode;
  }

  lemma TracksStart<W, R>(cache: Cache<W, R>, all: seq<nat>, inputs: seq<Input>, w: W)
    requires cache.Valid(inputs, w) && cache.OpcodeRight() && cache.entry == None && cache.effectKind == NO_KIND
    requires Respects(cache.site, cache.impossible, inputs, w)
    requires all == Installed(cache.site, cache.impossible, None, inputs, w)
    ensures Tracks(cache, [], all, inputs, w)
  {
    hide Respects, Installed, Total, Site.Valid, VariantOpcode;
    assert [] + all == all;
  }

  lemma TracksEnd<W, R>(cache: Cache<W, R>, done: seq<nat>, all: seq<nat>, w: W)
    requires Tracks(cache, done, all, [], w)
    ensures done == all && (cache.Elided() || cache.effectKind == LastKind(all))
    ensures cache.OpcodeRight() && (cache.fused ==> SmallWhenOverwritten(all))
    ensures TrivialRun(cache.site, cache.impossible, [], w) == []
  {
    hide SmallWhenOverwritten, Total, Site.Valid, Constant, VariantOpcode;
    assert done + [] == done;
  }
}
