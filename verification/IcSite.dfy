/** What an inline-cache site computes without any caching, and the promise its author makes. */
module IcSite {
  import opened Wrappers
  import opened IcSpecialization
  import opened IcCaptures

  /** One execution of the site: the key, and for each effect the fresh values of the captures that
      come from the main function. */
  datatype Input = Input(key: int, mains: seq<seq<int>>)

  /** What the IC body does: finish on its own, or call one effect with the values it computed,
      possibly after `SetUncacheable`. `world` is everything else, after the body's own work. */
  datatype Outcome<W, R> =
    | NoEffect(result: R, world: W)
    | Run(effect: nat, vals: seq<int>, cacheable: bool, world: W)

  datatype Site<!W, !R> = Site(
    effects: seq<Effect>,
    body: (Input, W) -> Outcome<W, R>,
    lambda: (nat, seq<int>, W) -> (R, W))
  {
    function AllSpecs(): (s: seq<seq<Spec>>)
      ensures |s| == |effects| && forall i :: 0 <= i < |s| ==> s[i] == effects[i].specs
    {
      seq(|effects|, i requires 0 <= i < |effects| => effects[i].specs)
    }

    /** What is checked when the bytecode is built. */
    ghost predicate Valid()
    {
      && |effects| > 0
      && (forall i :: 0 <= i < |effects| ==> effects[i].Valid())
      && Total(AllSpecs()) < 250
    }

    /** What the JIT asks for in addition. */
    predicate InWords() { forall i :: 0 <= i < |effects| ==> effects[i].InWords() }

    predicate ValidInput(input: Input)
    {
      |input.mains| == |effects| && forall i :: 0 <= i < |effects| ==> |input.mains[i]| == |effects[i].mains|
    }

    ghost predicate ValidOutcome(o: Outcome<W, R>)
    {
      o.Run? ==> o.effect < |effects| && effects[o.effect].Fits(o.vals)
    }
  }

  /** Trivial lowering: run the body, and the effect it calls. */
  ghost function TrivialStep<W, R>(s: Site<W, R>, input: Input, w: W): (R, W)
    requires s.Valid() && s.ValidInput(input) && s.ValidOutcome(s.body(input, w))
  {
    match s.body(input, w)
    case NoEffect(r, w1) => (r, w1)
    case Run(e, vals, _, w1) => s.lambda(e, Capture(s.effects[e], vals, input.mains[e]), w1)
  }

  ghost predicate SameBodyValues(e: Effect, a: seq<int>, b: seq<int>)
  {
    |a| == |b| == e.width && forall p :: 0 <= p < e.width && p !in e.mains ==> a[p] == b[p]
  }

  lemma SameCapture(e: Effect, a: seq<int>, b: seq<int>, mainVals: seq<int>)
    requires e.Valid() && SameBodyValues(e, a, b) && |mainVals| == |e.mains|
    ensures Capture(e, a, mainVals) == Capture(e, b, mainVals)
  {
    TargetAt(e, a, mainVals);
    TargetAt(e, b, mainVals);
    var x, y := Capture(e, a, mainVals), Capture(e, b, mainVals);
    forall p | 0 <= p < e.width ensures x[p] == y[p] {
      if p in e.mains {
        var i :| 0 <= i < |e.mains| && e.mains[i] == p;
        assert x[e.mains[i]] == mainVals[i] == y[e.mains[i]];
      }
    }
  }

  /** For the rest of the run, the body on this key would do nothing but call this effect with
      these values: they are constants for the key. */
  ghost predicate Constant<W, R>(s: Site<W, R>, key: int, effect: nat, vals: seq<int>, inputs: seq<Input>, w: W)
    requires s.Valid() && effect < |s.effects|
    decreases |inputs|
  {
    |inputs| > 0 ==>
      var o := s.body(inputs[0], w);
      && (inputs[0].key == key ==>
           o.Run? && o.effect == effect && SameBodyValues(s.effects[effect], o.vals, vals) && o.world == w)
      && (s.ValidInput(inputs[0]) && s.ValidOutcome(o) ==>
           Constant(s, key, effect, vals, inputs[1..], TrivialStep(s, inputs[0], w).1))
  }

  /** The contract of the IC API over a run of executions: keys are never the impossible value, and
      whatever is cached stays constant for its key. */
  ghost predicate Respects<W, R>(s: Site<W, R>, impossible: Option<int>, inputs: seq<Input>, w: W)
    requires s.Valid()
    decreases |inputs|
  {
    |inputs| > 0 ==>
      var o := s.body(inputs[0], w);
      && s.ValidInput(inputs[0])
      && impossible != Some(inputs[0].key)
      && s.ValidOutcome(o)
      && var next := TrivialStep(s, inputs[0], w).1;
         && (o.Run? && o.cacheable ==> Constant(s, inputs[0].key, o.effect, o.vals, inputs[1..], next))
         && Respects(s, impossible, inputs[1..], next)
  }

  /** The results of a run without caching. */
  ghost function TrivialRun<W, R>(s: Site<W, R>, impossible: Option<int>, inputs: seq<Input>, w: W): seq<R>
    requires s.Valid() && Respects(s, impossible, inputs, w)
    decreases |inputs|
  {
    if |inputs| == 0 then [] else
    var (r, next) := TrivialStep(s, inputs[0], w);
    [r] + TrivialRun(s, impossible, inputs[1..], next)
  }

  /** What one execution of a run that respects the contract gives. */
  lemma StepFacts<W, R>(s: Site<W, R>, impossible: Option<int>, input: Input, rest: seq<Input>, w: W)
    requires s.Valid() && Respects(s, impossible, [input] + rest, w)
    ensures
      var o := s.body(input, w);
      && s.ValidInput(input) && impossible != Some(input.key) && s.ValidOutcome(o)
      && var (r, next) := TrivialStep(s, input, w);
         && (o.Run? && o.cacheable ==> Constant(s, input.key, o.effect, o.vals, rest, next))
         && Respects(s, impossible, rest, next)
         && TrivialRun(s, impossible, [input] + rest, w) == [r] + TrivialRun(s, impossible, rest, next)
  {
    hide Constant, TrivialStep;
    assert ([input] + rest)[0] == input && ([input] + rest)[1..] == rest;
  }

  // ---------------------------------------------------------------- kinds

  /** The effect kind of an effect with these body values. */
  ghost function KindOf<W, R>(s: Site<W, R>, e: nat, vals: seq<int>): nat
    requires s.Valid() && e < |s.effects| && s.effects[e].Fits(vals)
  {
    Start(s.AllSpecs(), e) + OrdinalFor(s.effects[e].specs, s.effects[e].SpecArgs(vals))
  }

  lemma ArgumentsOf(e: Effect, vals: seq<int>)
    requires e.Valid() && e.Fits(vals)
    ensures ValidSpecs(e.specs) && Arguments(e.specs, e.SpecArgs(vals))
  {
  }

  lemma EffectShape<W, R>(s: Site<W, R>, e: nat, vals: seq<int>)
    requires s.Valid() && e < |s.effects| && s.effects[e].Fits(vals)
    ensures |vals| == s.effects[e].width
    ensures forall i :: 0 <= i < |s.effects[e].mains| ==> s.effects[e].mains[i] < s.effects[e].width
  {
  }

  lemma KindInRange<W, R>(s: Site<W, R>, e: nat, vals: seq<int>)
    requires s.Valid() && e < |s.effects| && s.effects[e].Fits(vals)
    ensures InBlock(s.AllSpecs(), KindOf(s, e, vals), e)
    ensures KindOf(s, e, vals) < Total(s.AllSpecs())
    ensures Start(s.AllSpecs(), e) + Combinations(s.effects[e].specs) < 250
  {
    hide Combinations, OrdinalFor;
    ArgumentsOf(s.effects[e], vals);
    DecodeComputedOrdinal(s.effects[e].specs, s.effects[e].SpecArgs(vals));
    StartsAscend(s.AllSpecs(), e, |s.effects|);
  }

  // ---------------------------------------------------------------- what a run caches

  /** The kinds that a cache of one entry installs over a run, in order; `have` is the key it holds
      at the start. */
  ghost function Installed<W, R>(s: Site<W, R>, impossible: Option<int>, have: Option<int>, inputs: seq<Input>,
                                 w: W): seq<nat>
    requires s.Valid() && Respects(s, impossible, inputs, w)
    decreases |inputs|
  {
    if |inputs| == 0 then [] else
    var o, next := s.body(inputs[0], w), TrivialStep(s, inputs[0], w).1;
    if o.Run? && o.cacheable && have != Some(inputs[0].key) then
      [KindOf(s, o.effect, o.vals)] + Installed(s, impossible, Some(inputs[0].key), inputs[1..], next)
    else
      Installed(s, impossible, have, inputs[1..], next)
  }

  lemma NothingInstalled<W, R>(s: Site<W, R>, impossible: Option<int>, have: Option<int>, w: W)
    requires s.Valid() && Respects(s, impossible, [], w)
    ensures Installed(s, impossible, have, [], w) == []
  {
  }

  lemma InstalledStep<W, R>(s: Site<W, R>, impossible: Option<int>, have: Option<int>, input: Input, rest: seq<Input>,
                            w: W)
    requires s.Valid() && Respects(s, impossible, [input] + rest, w)
    ensures
      var o, next := s.body(input, w), TrivialStep(s, input, w).1;
      && s.ValidOutcome(o) && Respects(s, impossible, rest, next)
      && Installed(s, impossible, have, [input] + rest, w) ==
           if o.Run? && o.cacheable && have != Some(input.key)
           then [KindOf(s, o.effect, o.vals)] + Installed(s, impossible, Some(input.key), rest, next)
           else Installed(s, impossible, have, rest, next)
  {
    hide Constant, TrivialStep, KindOf;
    assert ([input] + rest)[0] == input && ([input] + rest)[1..] == rest;
  }

  /** The keys of the executions that may be cached, in order. */
  ghost function CacheableKeys<W, R>(s: Site<W, R>, impossible: Option<int>, inputs: seq<Input>, w: W): seq<int>
    requires s.Valid() && Respects(s, impossible, inputs, w)
    decreases |inputs|
  {
    if |inputs| == 0 then [] else
    var o := s.body(inputs[0], w);
    (if o.Run? && o.cacheable then [inputs[0].key] else [])
      + CacheableKeys(s, impossible, inputs[1..], TrivialStep(s, inputs[0], w).1)
  }

  lemma CacheableStep<W, R>(s: Site<W, R>, impossible: Option<int>, input: Input, rest: seq<Input>, w: W)
    requires s.Valid() && Respects(s, impossible, [input] + rest, w)
    ensures
      var o, next := s.body(input, w), TrivialStep(s, input, w).1;
      && Respects(s, impossible, rest, next)
      && CacheableKeys(s, impossible, [input] + rest, w)
         == (if o.Run? && o.cacheable then [input.key] else []) + CacheableKeys(s, impossible, rest, next)
  {
    hide Constant, TrivialStep;
    assert ([input] + rest)[0] == input && ([input] + rest)[1..] == rest;
  }

  /** The first `n` different keys. */
  function FirstDistinct(keys: seq<int>, n: nat): seq<int>
  {
    if |keys| == 0 then [] else
    var k, before := keys[|keys| - 1], FirstDistinct(keys[..|keys| - 1], n);
    if k in before || |before| >= n then before else before + [k]
  }

  /** No key twice and at most `n`, all of them from the list. */
  lemma {:induction false} FirstDistinctFacts(keys: seq<int>, n: nat)
    ensures
      var r := FirstDistinct(keys, n);
      && |r| <= n
      && (forall i, j :: 0 <= i < j < |r| ==> r[i] != r[j])
      && (forall k :: k in r ==> k in keys)
  {
    if |keys| != 0 {
      FirstDistinctFacts(keys[..|keys| - 1], n);
    }
  }

  /** A key of the list is missing only if `n` others came before it. */
  lemma {:induction false} MissingKey(keys: seq<int>, n: nat, i: nat)
    requires i < |keys| && keys[i] !in FirstDistinct(keys, n)
    ensures |FirstDistinct(keys, n)| == n && FirstDistinct(keys[..i], n) == FirstDistinct(keys, n)
  {
    FirstDistinctFacts(keys, n);
    var last := |keys| - 1;
    if i < last {
      MissingKey(keys[..last], n, i);
      assert keys[..last][..i] == keys[..i];
    }
  }

  // ---------------------------------------------------------------- bodies that keep the promise

  /** The body only looks at the key: `choose` gives the effect and the values for each key. */
  ghost predicate DependsOnKeyOnly<W(!new), R>(s: Site<W, R>, choose: int -> (nat, seq<int>))
  {
    && (forall input: Input, w: W :: s.body(input, w) == Run(choose(input.key).0, choose(input.key).1, true, w))
    && (forall key: int :: choose(key).0 < |s.effects| && s.effects[choose(key).0].Fits(choose(key).1))
  }

  lemma {:induction false} KeyOnlyConstant<W(!new), R>(s: Site<W, R>, choose: int -> (nat, seq<int>), key: int,
                                                       inputs: seq<Input>, w: W)
    requires s.Valid() && DependsOnKeyOnly(s, choose)
    ensures Constant(s, key, choose(key).0, choose(key).1, inputs, w)
    decreases |inputs|
  {
    if |inputs| > 0 && s.ValidInput(inputs[0]) {
      var o := s.body(inputs[0], w);
      assert o == Run(choose(inputs[0].key).0, choose(inputs[0].key).1, true, w);
      KeyOnlyConstant(s, choose, key, inputs[1..], TrivialStep(s, inputs[0], w).1);
    }
  }

  /** Such a site respects the contract on every run of valid executions, whatever its effects do. */
  lemma {:induction false} KeyOnlyRespects<W(!new), R>(s: Site<W, R>, choose: int -> (nat, seq<int>),
                                                       impossible: Option<int>,
                                                      inputs: seq<Input>, w: W)
    requires s.Valid() && DependsOnKeyOnly(s, choose)
    requires forall i :: 0 <= i < |inputs| ==> s.ValidInput(inputs[i]) && impossible != Some(inputs[i].key)
    ensures Respects(s, impossible, inputs, w)
    decreases |inputs|
  {
    if |inputs| > 0 {
      var o := s.body(inputs[0], w);
      assert o == Run(choose(inputs[0].key).0, choose(inputs[0].key).1, true, w);
      var next := TrivialStep(s, inputs[0], w).1;
      KeyOnlyConstant(s, choose, inputs[0].key, inputs[1..], next);
      KeyOnlyRespects(s, choose, impossible, inputs[1..], next);
    }
  }
}
