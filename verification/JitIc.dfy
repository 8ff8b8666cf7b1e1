/** The JIT inline cache: stubs of machine code chained by their miss jumps. The first jump of the
    chain is patched to put a new stub in front; the inline slab, once used, sits in place of that
    jump and its own miss jump is patched from then on. */
module JitIc {
  import opened Wrappers
  import opened Arith
  import opened IcSpecialization
  import opened IcCaptures
  import opened IcSite

  const MAX_ENTRIES := 5
  const TWO31: int := 0x8000_0000

  // ---------------------------------------------------------------- patchable jumps

  /** The displacement stored by `SetDest` in a jump that ends at `end`. */
  function Displacement(end: int, dest: int): int { (dest - end) % TWO32 }

  /** The target read back by `GetDest`: the displacement is sign-extended. */
  function Target(end: int, rel: int): int { end + (if rel >= TWO31 then rel - TWO32 else rel) }

  /** A patched jump goes where it was sent exactly when the distance fits 32 signed bits. */
  lemma PatchedJumpIff(end: int, dest: int)
    ensures Target(end, Displacement(end, dest)) == dest <==> -TWO31 <= dest - end < TWO31
  {
    var d := dest - end;
    assert 0 <= d % TWO32 < TWO32 && (d - d % TWO32) % TWO32 == 0;
  }

  /** All code of a site lies within 2 GB. */
  predicate InReach(codeBase: int, a: int) { codeBase <= a < codeBase + TWO31 }

  /** The code of one IC case: compare with `key`, then run wrapper `ord` of `effect` on the
      immediates, or else jump to `missDest`. */
  datatype Stub = Stub(key: int, effect: nat, ord: nat, imms: seq<int>, missDest: int)

  /** The self-modifying region: the initial jump, or the inline slab with its own patchable jump. */
  datatype Region = InitialJump(rel: int) | Slab(stub: Stub, rel: int)

  // ---------------------------------------------------------------- chains of stubs

  /** The address a lookup comes to after `i` misses. */
  function AddressIn(chain: seq<int>, slowPath: int, i: nat): int
    requires i <= |chain|
  {
    if i == |chain| then slowPath else chain[i]
  }

  /** The miss jumps thread the addresses of `chain`, each once, and end at the slow path. */
  ghost predicate Threaded(code: map<int, Stub>, chain: seq<int>, slowPath: int)
  {
    && (forall i :: 0 <= i < |chain| ==> chain[i] in code && chain[i] != slowPath)
    && (forall i :: 0 <= i < |chain| ==> code[chain[i]].missDest == AddressIn(chain, slowPath, i + 1))
    && (forall i, j :: 0 <= i < j < |chain| ==> chain[i] != chain[j])
  }

  ghost function StubsAt(code: map<int, Stub>, chain: seq<int>): (stubs: seq<Stub>)
    requires forall i :: 0 <= i < |chain| ==> chain[i] in code
    ensures |stubs| == |chain| && forall i :: 0 <= i < |chain| ==> stubs[i] == code[chain[i]]
  {
    seq(|chain|, i requires 0 <= i < |chain| => code[chain[i]])
  }

  /** A stub that misses to the head of the chain can be put in front of it. */
  lemma ThreadedCons(code: map<int, Stub>, chain: seq<int>, slowPath: int, address: int, stub: Stub)
    requires Threaded(code, chain, slowPath) && address !in code && address != slowPath
    requires stub.missDest == AddressIn(chain, slowPath, 0)
    ensures Threaded(code[address := stub], [address] + chain, slowPath)
    ensures StubsAt(code[address := stub], [address] + chain) == [stub] + StubsAt(code, chain)
  {
    var code1, chain1 := code[address := stub], [address] + chain;
    forall i | 0 <= i < |chain1|
      ensures chain1[i] in code1 && chain1[i] != slowPath
      ensures code1[chain1[i]] == if i == 0 then stub else code[chain[i - 1]]
      ensures code1[chain1[i]].missDest == AddressIn(chain1, slowPath, i + 1)
    {
      if i > 0 { assert chain1[i] == chain[i - 1] && chain[i - 1] in code; }
    }
    forall i, j | 0 <= i < j < |chain1| ensures chain1[i] != chain1[j] {
      assert chain1[j] == chain[j - 1] && chain[j - 1] in code;
      if i > 0 { assert chain1[i] == chain[i - 1]; }
    }
  }

  function KeysOf(stubs: seq<Stub>): set<int> { set i | 0 <= i < |stubs| :: stubs[i].key }

  predicate DistinctKeys(stubs: seq<Stub>) { forall i, j :: 0 <= i < j < |stubs| ==> stubs[i].key != stubs[j].key }

  /** A stub with a new key, put anywhere, adds its key and keeps the keys distinct. */
  lemma InsertedKey(a: seq<Stub>, stub: Stub, b: seq<Stub>)
    requires stub.key !in KeysOf(a + b) && DistinctKeys(a + b)
    ensures KeysOf(a + [stub] + b) == KeysOf(a + b) + {stub.key} && DistinctKeys(a + [stub] + b)
  {
    var before, after := a + b, a + [stub] + b;
    assert forall i :: 0 <= i < |a| ==> after[i] == before[i];
    assert forall i :: |a| < i < |after| ==> after[i] == before[i - 1];
    assert forall i :: 0 <= i < |before| ==> before[i] == if i < |a| then after[i] else after[i + 1];
    assert after[|a|] == stub;
    forall k | k in KeysOf(before) ensures k in KeysOf(after) {
      var i :| 0 <= i < |before| && before[i].key == k;
      assert after[if i < |a| then i else i + 1].key == k;
    }
    forall k | k in KeysOf(after) ensures k in KeysOf(before) + {stub.key} {
      var i :| 0 <= i < |after| && after[i].key == k;
      if i != |a| { assert before[if i < |a| then i else i - 1].key == k; }
    }
    forall i, j | 0 <= i < j < |after| ensures after[i].key != after[j].key {
      if i != |a| && j != |a| {
        assert before[if i < |a| then i else i - 1].key != before[if j < |a| then j else j - 1].key;
      } else if i == |a| {
        assert before[j - 1].key in KeysOf(before);
      } else {
        assert before[i].key in KeysOf(before);
      }
    }
  }

  lemma InsertedFirst(stub: Stub, b: seq<Stub>)
    requires stub.key !in KeysOf([] + b) && DistinctKeys([] + b)
    ensures KeysOf([stub] + b) == KeysOf([] + b) + {stub.key} && DistinctKeys([stub] + b)
  {
    InsertedKey([], stub, b);
    assert [] + [stub] + b == [stub] + b;
  }

  class JitSite<!W, !R> {
    const site: Site<W, R>
    /** All code lies within 2 GB of `codeBase`. */
    const codeBase: int
    const smcStart: int
    const slowPath: int
    /** Kinds whose code fits the inline slab, and where the slab's miss jump ends. */
    const slabKinds: set<nat>
    const slabJumpEnd: int

    var smc: Region
    var code: map<int, Stub>
    var numEntries: nat
    var isInlineSlabUsed: bool

    /** Addresses of the outlined stubs, in the order the miss jumps visit them. */
    ghost var chain: seq<int>
    /** The body values behind each stub. */
    ghost var slabVals: seq<int>
    ghost var stubVals: map<int, seq<int>>

    predicate Near(a: int) { InReach(codeBase, a) }

    /** Where the jump ends that the next outlined stub must patch. */
    function PatchEnd(): int
      reads this`isInlineSlabUsed
    {
      if isInlineSlabUsed then slabJumpEnd else smcStart + 5
    }

    /** The slab's stub, if the slab is used. */
    ghost function SlabStubs(): seq<Stub>
      reads this`smc
    {
      if smc.Slab? then [smc.stub] else []
    }

    ghost function Outlined(): seq<Stub>
      reads this
      requires Threaded(code, chain, slowPath)
    {
      StubsAt(code, chain)
    }

    /** The stubs in the order in which a lookup meets them. */
    ghost function Entries(): seq<Stub>
      reads this
      requires Threaded(code, chain, slowPath)
    {
      SlabStubs() + Outlined()
    }

    /** The keys a lookup can hit. */
    ghost function Keys(): set<int>
      reads this
      requires Threaded(code, chain, slowPath)
    {
      KeysOf(Entries())
    }

    /** The stub is the code for this key and these body values. */
    ghost predicate Encodes(stub: Stub, vals: seq<int>)
      requires site.Valid()
    {
      && stub.effect < |site.effects|
      && site.effects[stub.effect].Fits(vals)
      && stub.ord == OrdinalFor(site.effects[stub.effect].specs, site.effects[stub.effect].SpecArgs(vals))
      && stub.imms == Immediates(site.effects[stub.effect], vals)
      && (forall i :: 0 <= i < |stub.imms| ==> 0 <= stub.imms[i] < TWO64)
    }

    /** ... and stays right for the rest of the run. */
    ghost predicate Holds(stub: Stub, vals: seq<int>, inputs: seq<Input>, w: W)
      requires site.Valid()
    {
      Encodes(stub, vals) && Constant(site, stub.key, stub.effect, vals, inputs, w)
    }

    /** The jumps thread every stub exactly once and end at the slow path. */
    ghost predicate Linked()
      reads this
    {
      && Near(smcStart + 5) && Near(slabJumpEnd) && Near(slowPath)
      && (isInlineSlabUsed <==> smc.Slab?)
      && Threaded(code, chain, slowPath)
      && (forall i :: 0 <= i < |chain| ==> Near(chain[i]))
      && Target(PatchEnd(), smc.rel) == AddressIn(chain, slowPath, 0)
      && numEntries == |Entries()| <= MAX_ENTRIES
    }

    /** Every stub holds for the rest of the run. */
    ghost predicate AllHold(inputs: seq<Input>, w: W)
      reads this
      requires site.Valid() && Threaded(code, chain, slowPath)
    {
      && (smc.Slab? ==> Holds(smc.stub, slabVals, inputs, w))
      && (forall i :: 0 <= i < |chain| ==> chain[i] in stubVals && Holds(code[chain[i]], stubVals[chain[i]], inputs, w))
    }

    ghost predicate Valid(inputs: seq<Input>, w: W)
      reads this
    {
      && site.Valid() && site.InWords()
      && Linked()
      && DistinctKeys(Entries())
      && AllHold(inputs, w)
    }

    constructor (site: Site<W, R>, codeBase: int, smcStart: int, slowPath: int, slabKinds: set<nat>, slabJumpEnd: int)
      requires site.Valid() && site.InWords()
      requires InReach(codeBase, smcStart + 5) && InReach(codeBase, slowPath) && InReach(codeBase, slabJumpEnd)
      ensures forall inputs, w :: Valid(inputs, w)
      ensures this.site == site && this.codeBase == codeBase && this.slowPath == slowPath
      ensures code == map[] && chain == [] && smc.InitialJump?
    {
      this.site, this.codeBase, this.smcStart, this.slowPath := site, codeBase, smcStart, slowPath;
      this.slabKinds, this.slabJumpEnd := slabKinds, slabJumpEnd;
      smc := InitialJump(Displacement(smcStart + 5, slowPath));
      code, numEntries, isInlineSlabUsed := map[], 0, false;
      chain, slabVals, stubVals := [], [], map[];
      new;
      hide JitSite.Valid, Site.Valid, Target, Displacement;
      PatchedJumpIff(smcStart + 5, slowPath);
      EmptyIsValid();
    }

    lemma EmptyIsValid()
      requires site.Valid() && site.InWords()
      requires Near(smcStart + 5) && Near(slowPath) && Near(slabJumpEnd)
      requires chain == [] && smc.InitialJump? && !isInlineSlabUsed && numEntries == 0
      requires Target(smcStart + 5, smc.rel) == slowPath
      ensures forall inputs, w :: Valid(inputs, w)
    {
      hide Site.Valid, Target;
    }

    // -------------------------------------------------------------- following the jumps

    /** Where control goes from the self-modifying region when its key, if any, does not match. */
    function FirstMiss(): int
      reads this`smc, this`isInlineSlabUsed
    {
      Target(PatchEnd(), smc.rel)
    }

    /** Following the miss jumps from the region visits every entry exactly once, newest outlined
        stub first, and ends at the slow path. */
    method Walk() returns (visited: seq<Stub>)
      requires Linked()
      ensures visited == Entries() && |visited| == numEntries
    {
      visited := if smc.Slab? then [smc.stub] else [];
      var at := FirstMiss();
      ghost var i := 0;
      while at != slowPath
        invariant 0 <= i <= |chain| && at == AddressIn(chain, slowPath, i)
        invariant visited == SlabStubs() + StubsAt(code, chain)[..i]
        decreases |chain| - i
      {
        visited := visited + [code[at]];
        at := code[at].missDest;
        i := i + 1;
      }
      assert i == |chain|;
    }

    /** The generated dispatch: compare key after key along the chain. */
    method Dispatch(key: int) returns (found: Option<Stub>, ghost vals: seq<int>)
      requires Linked()
      ensures found.Some? <==> key in Keys()
      ensures found.Some? ==> found.value.key == key
      ensures found.Some? ==>
        || (smc.Slab? && found.value == smc.stub && vals == slabVals)
        || (exists i ::
              && 0 <= i < |chain| && found.value == code[chain[i]]
              && (chain[i] in stubVals ==> vals == stubVals[chain[i]]))
    {
      vals := [];
      if smc.Slab? && smc.stub.key == key {
        assert Entries()[0] == smc.stub;
        return Some(smc.stub), slabVals;
      }
      var at := FirstMiss();
      ghost var i := 0;
      while at != slowPath
        invariant 0 <= i <= |chain| && at == AddressIn(chain, slowPath, i)
        invariant forall j :: 0 <= j < i ==> code[chain[j]].key != key
        decreases |chain| - i
      {
        if code[at].key == key {
          assert Entries()[|SlabStubs()| + i] == code[at];
          vals := if at in stubVals then stubVals[at] else [];
          return Some(code[at]), vals;
        }
        at := code[at].missDest;
        i := i + 1;
      }
      assert i == |chain|;
      found := None;
    }

    // -------------------------------------------------------------- creating an entry

    /** `FitsInlineSlab`: claims the slab if the kind qualifies and the slab is free. */
    method TryClaimSlab(kind: nat) returns (claimed: bool)
      modifies this`isInlineSlabUsed, this`numEntries
      ensures claimed <==> kind in slabKinds && !old(isInlineSlabUsed)
      ensures claimed ==> isInlineSlabUsed && numEntries == old(numEntries) + 1
      ensures !claimed ==> isInlineSlabUsed == old(isInlineSlabUsed) && numEntries == old(numEntries)
    {
      claimed := kind in slabKinds && !isInlineSlabUsed;
      if claimed {
        isInlineSlabUsed := true;
        numEntries := numEntries + 1;
      }
    }

    /** The slab takes over the target of the jump it replaces. */
    method FillSlab(stub: Stub, ghost vals: seq<int>)
      requires site.Valid() && smc.InitialJump? && isInlineSlabUsed
      requires Near(smcStart + 5) && Near(slabJumpEnd)
      requires Near(Target(smcStart + 5, smc.rel))
      modifies this`smc, this`slabVals
      ensures smc.Slab? && smc.stub == stub.(missDest := Target(smcStart + 5, old(smc.rel)))
      ensures Target(slabJumpEnd, smc.rel) == Target(smcStart + 5, old(smc.rel))
      ensures slabVals == vals
    {
      // the region still holds the initial jump although the slab is already marked as used
      var missDest := Target(smcStart + 5, smc.rel);
      PatchedJumpIff(slabJumpEnd, missDest);
      smc := Slab(stub.(missDest := missDest), Displacement(slabJumpEnd, missDest));
      slabVals := vals;
    }

    /** A new stub goes in front of the outlined ones. */
    method InsertStub(stub: Stub, address: int, ghost vals: seq<int>) returns (ghost placed: Stub)
      requires Linked() && numEntries < MAX_ENTRIES
      requires Near(address) && address !in code && address != slowPath
      modifies this`smc, this`code, this`numEntries, this`chain, this`stubVals
      ensures Linked() && numEntries == old(numEntries) + 1
      ensures placed == stub.(missDest := placed.missDest) && code == old(code)[address := placed]
      ensures chain == [address] + old(chain) && stubVals == old(stubVals)[address := vals]
      ensures smc == old(smc).(rel := smc.rel)
      ensures Entries() == SlabStubs() + [placed] + StubsAt(old(code), old(chain))
    {
      hide Target, Displacement, Threaded, StubsAt;
      assert numEntries < MAX_ENTRIES;
      numEntries := numEntries + 1;
      var end := PatchEnd();
      var missDest := Target(end, smc.rel);
      ThreadedCons(code, chain, slowPath, address, stub.(missDest := missDest));
      code := code[address := stub.(missDest := missDest)];
      PatchedJumpIff(end, address);
      smc := smc.(rel := Displacement(end, address));
      chain := [address] + chain;
      stubVals := stubVals[address := vals];
      placed := code[address];
    }

    /** Where a stub's miss jump goes does not matter to what it encodes. */
    lemma HoldsAnywhere(stub: Stub, dest: int, vals: seq<int>, inputs: seq<Input>, w: W)
      requires site.Valid() && Holds(stub, vals, inputs, w)
      ensures Holds(stub.(missDest := dest), vals, inputs, w)
    {
    }

    method CreateEntry(key: int, e: nat, vals: seq<int>, address: int, ghost rest: seq<Input>, ghost w: W)
      requires Valid(rest, w) && key !in Keys() && numEntries < MAX_ENTRIES
      requires Near(address) && address !in code && address != slowPath
      requires e < |site.effects| && site.effects[e].Fits(vals)
      requires Constant(site, key, e, vals, rest, w)
      modifies this
      ensures Valid(rest, w) && numEntries == old(numEntries) + 1
      ensures Keys() == old(Keys()) + {key}
      ensures code.Keys <= old(code).Keys + {address}
    {
      hide Combinations, OrdinalFor, Total, Constant;
      var effect := site.effects[e];
      KindInRange(site, e, vals);
      ArgumentsOf(effect, vals);
      ImmediatesAreWords(effect, vals);
      var k := ComputeOrdinal(effect.specs, effect.SpecArgs(vals), 0);
      var stub := Stub(key, e, k, Immediates(effect, vals), 0);
      assert Holds(stub, vals, rest, w);
      PlaceStub(stub, Start(site.AllSpecs(), e) + k, vals, address, rest, w);
    }

    method PlaceStub(stub: Stub, kind: nat, ghost vals: seq<int>, address: int, ghost rest: seq<Input>, ghost w: W)
      requires Valid(rest, w) && stub.key !in Keys() && numEntries < MAX_ENTRIES
      requires Near(address) && address !in code && address != slowPath
      requires Holds(stub, vals, rest, w)
      modifies this
      ensures Valid(rest, w) && numEntries == old(numEntries) + 1
      ensures Keys() == old(Keys()) + {stub.key}
      ensures code.Keys <= old(code).Keys + {address}
    {
      hide Holds, Site.Valid, Target, Displacement, Threaded, StubsAt, KeysOf, DistinctKeys, InReach;
      ghost var outlined := Outlined();
      var claimed := TryClaimSlab(kind);
      if claimed {
        FillSlab(stub, vals);
        HoldsAnywhere(stub, smc.stub.missDest, vals, rest, w);
        InsertedFirst(smc.stub, outlined);
      } else {
        PlaceOutlined(stub, vals, address, rest, w);
      }
    }

    method PlaceOutlined(stub: Stub, ghost vals: seq<int>, address: int, ghost rest: seq<Input>, ghost w: W)
      requires Valid(rest, w) && stub.key !in Keys() && numEntries < MAX_ENTRIES
      requires Near(address) && address !in code && address != slowPath
      requires Holds(stub, vals, rest, w)
      modifies this
      ensures Valid(rest, w) && numEntries == old(numEntries) + 1
      ensures Keys() == old(Keys()) + {stub.key}
      ensures code.Keys <= old(code).Keys + {address}
    {
      hide Holds, Site.Valid, Target, Displacement, StubsAt, KeysOf, DistinctKeys;
      ghost var outlined := StubsAt(code, chain);
      ghost var placed := InsertStub(stub, address, vals);
      HoldsAnywhere(stub, placed.missDest, vals, rest, w);
      InsertedKey(SlabStubs(), placed, outlined);
    }

    // -------------------------------------------------------------- executions

    /** One execution returns what running the body would, creates an entry exactly on a cacheable
        miss with room, and leaves the chain right for the rest of the run. */
    method Execute(input: Input, w: W, address: int, ghost rest: seq<Input>, undefinedStruct: nat -> seq<int>)
      returns (r: R, w': W)
      requires Valid([input] + rest, w) && Respects(site, None, [input] + rest, w)
      requires Near(address) && address !in code && address != slowPath
      requires forall n: nat :: |undefinedStruct(n)| == n
      modifies this
      ensures (r, w') == TrivialStep(site, input, w)
      ensures Valid(rest, w')
      ensures
        var o := site.body(input, w);
        var creates := o.Run? && o.cacheable && input.key !in old(Keys()) && old(numEntries) < 5;
        && Keys() == old(Keys()) + (if creates then {input.key} else {})
        && numEntries == old(numEntries) + (if creates then 1 else 0)
      ensures code.Keys <= old(code).Keys + {address}
    {
      hide Respects, TrivialRun, Total, Combinations, OrdinalFor, Effect.Valid, Effect.Fits, KeysOf, DistinctKeys,
          StubsAt;
      StepFacts(site, None, input, rest, w);
      assert ([input] + rest)[0] == input && ([input] + rest)[1..] == rest;
      var found, vals := Dispatch(input.key);
      if found.Some? {
        r, w' := RunStub(found.value, input, w, undefinedStruct, vals);
        StillConstant(input, rest, w);
      } else {
        r, w' := RunBody(input, w, address, rest);
      }
    }

    method RunStub(stub: Stub, input: Input, w: W, undefinedStruct: nat -> seq<int>, ghost vals: seq<int>)
      returns (r: R, w': W)
      requires site.Valid() && Encodes(stub, vals) && site.ValidInput(input) && site.ValidOutcome(site.body(input, w))
      requires forall n: nat :: |undefinedStruct(n)| == n
      requires
        var o := site.body(input, w);
        o.Run? && o.effect == stub.effect && SameBodyValues(site.effects[stub.effect], o.vals, vals) && o.world == w
      ensures (r, w') == TrivialStep(site, input, w)
    {
      var effect := site.effects[stub.effect];
      var capture := RebuildFromImmediates(effect, stub.ord, stub.imms, input.mains[stub.effect],
                                           undefinedStruct(effect.width), vals);
      SameCapture(effect, site.body(input, w).vals, vals, input.mains[stub.effect]);
      var result := site.lambda(stub.effect, capture, w);
      r, w' := result.0, result.1;
    }

    /** What is constant for a run is constant for the rest of it. */
    lemma StillConstant(input: Input, rest: seq<Input>, w: W)
      requires Valid([input] + rest, w)
      requires site.ValidInput(input) && site.ValidOutcome(site.body(input, w))
      ensures Valid(rest, TrivialStep(site, input, w).1)
    {
      hide Total, Combinations, OrdinalFor, Effect.Valid, Effect.Fits, TrivialStep, DistinctKeys, StubsAt;
      assert ([input] + rest)[0] == input && ([input] + rest)[1..] == rest;
    }

    method RunBody(input: Input, w: W, address: int, ghost rest: seq<Input>) returns (r: R, w': W)
      requires Valid([input] + rest, w) && input.key !in Keys()
      requires site.ValidInput(input) && site.ValidOutcome(site.body(input, w))
      requires
        var o := site.body(input, w);
        o.Run? && o.cacheable ==> Constant(site, input.key, o.effect, o.vals, rest, TrivialStep(site, input, w).1)
      requires Near(address) && address !in code && address != slowPath
      modifies this
      ensures (r, w') == TrivialStep(site, input, w)
      ensures Valid(rest, w')
      ensures
        var o := site.body(input, w);
        var creates := o.Run? && o.cacheable && input.key !in old(Keys()) && old(numEntries) < 5;
        && Keys() == old(Keys()) + (if creates then {input.key} else {})
        && numEntries == old(numEntries) + (if creates then 1 else 0)
      ensures code.Keys <= old(code).Keys + {address}
    {
      hide Total, Combinations, OrdinalFor, Effect.Valid, Effect.Fits, Constant, KeysOf, DistinctKeys, StubsAt;
      StillConstant(input, rest, w);
      match site.body(input, w)
      case NoEffect(result, w1) =>
        r, w' := result, w1;
      case Run(e, vals, cacheable, w1) =>
        EffectShape(site, e, vals);
        if cacheable && numEntries < MAX_ENTRIES {
          CreateEntry(input.key, e, vals, address, rest, TrivialStep(site, input, w).1);
        }
        var result := site.lambda(e, Capture(site.effects[e], vals, input.mains[e]), w1);
        r, w' := result.0, result.1;
    }
  }

  // ---------------------------------------------------------------- whole runs

  /** Where a run stands: `done` are the cacheable keys so far, `all` those of the whole run. */
  ghost predicate Tracks<W, R>(jit: JitSite<W, R>, done: seq<int>, all: seq<int>, inputs: seq<Input>, w: W)
    reads jit
  {
    && jit.Valid(inputs, w)
    && jit.site.Valid() && jit.Linked()
    && Respects(jit.site, None, inputs, w)
    && all == done + CacheableKeys(jit.site, None, inputs, w)
    && jit.numEntries == |FirstDistinct(done, MAX_ENTRIES)|
    && (forall k :: k in jit.Keys() <==> k in FirstDistinct(done, MAX_ENTRIES))
  }

  /** One execution of a run. */
  method RunStep<W, R>(jit: JitSite<W, R>, input: Input, w: W, address: int, undefinedStruct: nat -> seq<int>,
                       ghost rest: seq<Input>, ghost done: seq<int>, ghost all: seq<int>)
    returns (r: R, w': W, ghost done': seq<int>)
    requires Tracks(jit, done, all, [input] + rest, w)
    requires jit.Near(address) && address !in jit.code && address != jit.slowPath
    requires forall n: nat :: |undefinedStruct(n)| == n
    modifies jit
    ensures Tracks(jit, done', all, rest, w') && Respects(jit.site, None, rest, w')
    ensures TrivialRun(jit.site, None, [input] + rest, w) == [r] + TrivialRun(jit.site, None, rest, w')
    ensures jit.code.Keys <= old(jit.code).Keys + {address}
  {
    hide Respects, TrivialRun, CacheableKeys, TrivialStep, FirstDistinct;
    hide JitSite.Valid, JitSite.Keys, Site.Valid, Site.ValidInput;
    StepFacts(jit.site, None, input, rest, w);
    CacheableStep(jit.site, None, input, rest, w);
    ghost var o := jit.site.body(input, w);
    done' := if o.Run? && o.cacheable then done + [input.key] else done;
    if o.Run? && o.cacheable { OneMore(done, input.key); }
    assert all == done' + CacheableKeys(jit.site, None, rest, TrivialStep(jit.site, input, w).1);
    r, w' := jit.Execute(input, w, address, rest, undefinedStruct);
    LinkedWhenValid(jit, rest, w');
  }

  lemma LinkedWhenValid<W, R>(jit: JitSite<W, R>, inputs: seq<Input>, w: W)
    requires jit.Valid(inputs, w)
    ensures jit.site.Valid() && jit.Linked()
  {
  }

  lemma OneMore(done: seq<int>, key: int)
    ensures
      var before := FirstDistinct(done, MAX_ENTRIES);
      FirstDistinct(done + [key], MAX_ENTRIES)
          == if key in before || |before| >= MAX_ENTRIES then before else before + [key]
  {
    assert (done + [key])[..|done|] == done;
  }

  /** Every run of executions of a JIT site returns the results of trivial lowering; following the
      jumps at the end meets exactly one entry for each of the first five different keys that could
      be cached. */
  method RunJit<W, R>(site: Site<W, R>, codeBase: int, smcStart: int, slowPath: int, slabKinds: set<nat>,
                      slabJumpEnd: int, inputs: seq<Input>, w0: W, addresses: seq<int>,
                      undefinedStruct: nat -> seq<int>)
    returns (results: seq<R>, entries: seq<Stub>)
    requires site.Valid() && site.InWords() && Respects(site, None, inputs, w0)
    requires InReach(codeBase, smcStart + 5) && InReach(codeBase, slowPath) && InReach(codeBase, slabJumpEnd)
    requires |addresses| == |inputs|
    requires forall i :: 0 <= i < |addresses| ==> InReach(codeBase, addresses[i]) && addresses[i] != slowPath
    requires forall i, j :: 0 <= i < j < |addresses| ==> addresses[i] != addresses[j]
    requires forall n: nat :: |undefinedStruct(n)| == n
    ensures results == TrivialRun(site, None, inputs, w0)
    ensures
      var created := FirstDistinct(CacheableKeys(site, None, inputs, w0), 5);
      |entries| == |created| && DistinctKeys(entries) && forall k :: k in KeysOf(entries) <==> k in created
  {
    hide Respects, TrivialRun, TrivialStep, Constant, CacheableKeys, FirstDistinct, Tracks, KeysOf, DistinctKeys;
    hide JitSite.Valid, Site.Valid;
    var jit := new JitSite(site, codeBase, smcStart, slowPath, slabKinds, slabJumpEnd);
    results := [];
    var w := w0;
    ghost var done, all := [], CacheableKeys(site, None, inputs, w0);
    assert inputs[0..] == inputs;
    TracksStart(jit, all, inputs, w0);
    for i := 0 to |inputs|
      invariant fresh(jit) && jit.site == site && jit.codeBase == codeBase && jit.slowPath == slowPath
      invariant Tracks(jit, done, all, inputs[i..], w) && Respects(site, None, inputs[i..], w)
      invariant forall a :: a in jit.code ==> a in addresses[..i]
      invariant results + TrivialRun(site, None, inputs[i..], w) == TrivialRun(site, None, inputs, w0)
    {
      assert inputs[i..] == [inputs[i]] + inputs[i + 1..];
      var r, w1, done1 := RunStep(jit, inputs[i], w, addresses[i], undefinedStruct, inputs[i + 1..], done, all);
      results := results + [r];
      w, done := w1, done1;
    }
    assert inputs[|inputs|..] == [];
    TracksEnd(jit, done, all, w);
    entries := jit.Walk();
  }

  lemma TracksStart<W, R>(jit: JitSite<W, R>, all: seq<int>, inputs: seq<Input>, w: W)
    requires jit.Valid(inputs, w) && jit.chain == [] && jit.smc.InitialJump?
    requires Respects(jit.site, None, inputs, w) && all == CacheableKeys(jit.site, None, inputs, w)
    ensures Tracks(jit, [], all, inputs, w)
  {
    hide Respects, CacheableKeys, Site.Valid;
    assert [] + all == all;
    assert jit.Entries() == [];
  }

  lemma TracksEnd<W, R>(jit: JitSite<W, R>, done: seq<int>, all: seq<int>, w: W)
    requires Tracks(jit, done, all, [], w)
    ensures done == all && jit.Linked() && DistinctKeys(jit.Entries())
    ensures jit.numEntries == |FirstDistinct(all, MAX_ENTRIES)|
    ensures forall k :: k in KeysOf(jit.Entries()) <==> k in FirstDistinct(all, MAX_ENTRIES)
    ensures TrivialRun(jit.site, None, [], w) == []
  {
    hide Site.Valid, KeysOf, DistinctKeys, FirstDistinct;
    assert done + [] == done;
  }
}
