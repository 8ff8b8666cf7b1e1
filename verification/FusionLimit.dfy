/** A site that passes every check made when the bytecode is built, and a run on it that the fused
    opcode does not survive: the bound on overwritten kinds is tight at a site. */
module FusionLimit {
  import opened Wrappers
  import Words
  import opened IcSpecialization
  import opened IcCaptures
  import opened IcSite
  import opened OpcodeFusion

  /** A capture specialized for 49 values besides the generic fallback: 50 specializations, the most
      an effect may have. */
  function WideSpec(): Spec { Spec(0, false, seq(49, i => i)) }

  function WideEffect(): Effect { Effect([WideSpec()], [Local(0, 1)], [], 1) }

  /** Three such effects. Key 0 calls the third one with value 28, other keys the first with value 0. */
  function Choose(key: int): (nat, seq<int>) { if key == 0 then (2, [28]) else (0, [0]) }

  function WideSite(): Site<int, int>
  {
    Site([WideEffect(), WideEffect(), WideEffect()],
         (input: Input, w: int) => Run(Choose(input.key).0, Choose(input.key).1, true, w),
         (e: nat, capture: seq<int>, w: int) => (e, w))
  }

  function Call(key: int): Input { Input(key, [[], [], []]) }

  lemma WideFits(v: nat)
    requires v < 49
    ensures WideEffect().Fits([v])
  {
    hide Words.Pow2;
    Words.Pow2Values();
    assert WideEffect().locals == [Local(0, 1)];
  }

  lemma WideSpecValid()
    ensures WideSpec().Valid() && !WideSpec().isFullCoverage && WideSpec().ord == 0
  {
  }

  lemma WideEffectValid()
    ensures WideEffect().Valid()
  {
    hide WideSpec;
    WideSpecValid();
    var e := WideEffect();
    assert e.locals[0] == Local(0, 1) && e.StoredAt(0);
  }

  lemma WideSpecs()
    ensures WideSite().AllSpecs() == [[WideSpec()], [WideSpec()], [WideSpec()]]
    ensures Combinations([WideSpec()]) == 50
  {
    assert [WideSpec()][1..] == [];
  }

  lemma WideStarts()
    ensures
      var specs := WideSite().AllSpecs();
      Start(specs, 1) == 50 && Start(specs, 2) == 100 && Total(specs) == 150
  {
    hide Combinations;
    WideSpecs();
    var specs := WideSite().AllSpecs();
    assert Start(specs, 0) == 0;
    assert Start(specs, 1) == 50;
    assert Start(specs, 2) == 100;
    assert Start(specs, 3) == 150;
  }

  lemma WideSiteValid()
    ensures WideSite().Valid()
  {
    hide Effect.Valid, Total;
    WideEffectValid();
    WideStarts();
  }

  /** The ordinal of a listed value is the value itself. */
  lemma WideOrdinal(v: nat)
    requires v < 49
    ensures OrdinalFor([WideSpec()], [v]) == v
  {
    var spec := WideSpec();
    assert spec.values[0..] == spec.values && spec.values[v] == v;
    DigitFound(spec, v, 0);
    assert Digit(spec, v, 0) == v;
    assert DigitsFor([spec], [v]) == [v];
    assert [spec][1..] == [] && [v][1..] == [];
    assert Number([], []) == 0 && Times(50, 0) == 0;
  }

  lemma WideKinds()
    ensures WideSite().Valid() && WideEffect().Fits([28]) && WideEffect().Fits([0])
    ensures KindOf(WideSite(), 2, [28]) == 128 && KindOf(WideSite(), 0, [0]) == 0
  {
    hide OrdinalFor, Start;
    WideSiteValid();
    WideFits(28);
    WideFits(0);
    WideStarts();
    WideOrdinal(28);
    WideOrdinal(0);
    assert WideEffect().SpecArgs([28]) == [28] && WideEffect().SpecArgs([0]) == [0];
    FirstStart(WideSite().AllSpecs());
  }

  lemma FirstStart(specs: seq<seq<Spec>>)
    ensures Start(specs, 0) == 0
  {
  }

  /** Two cacheable executions with different keys install two kinds. */
  lemma TwoInstalled<W, R>(s: Site<W, R>, a: Input, b: Input, w: W)
    requires s.Valid() && Respects(s, None, [a, b], w) && a.key != b.key
    requires s.ValidInput(a) && s.ValidInput(b) && s.ValidOutcome(s.body(a, w))
    requires
      var o, p := s.body(a, w), s.body(b, TrivialStep(s, a, w).1);
      o.Run? && o.cacheable && p.Run? && p.cacheable && s.ValidOutcome(p)
    ensures
      var o, p := s.body(a, w), s.body(b, TrivialStep(s, a, w).1);
      Installed(s, None, None, [a, b], w) == [KindOf(s, o.effect, o.vals), KindOf(s, p.effect, p.vals)]
  {
    hide KindOf, Installed, Constant, Respects, TrivialStep;
    assert [a] + [b] == [a, b] && [b] + [] == [b];
    InstalledStep(s, None, None, a, [b], w);
    InstalledStep(s, None, Some(a.key), b, [], TrivialStep(s, a, w).1);
    NothingInstalled(s, None, Some(b.key), TrivialStep(s, b, TrivialStep(s, a, w).1).1);
  }

  lemma WideKeyOnly()
    ensures DependsOnKeyOnly(WideSite(), Choose)
  {
    hide Effect.Fits;
    WideFits(28);
    WideFits(0);
  }

  lemma WideRespects(w: int)
    ensures WideSite().Valid() && Respects(WideSite(), None, [Call(0), Call(1)], w)
  {
    hide Site.Valid, Respects, DependsOnKeyOnly;
    WideSiteValid();
    WideKeyOnly();
    KeyOnlyRespects(WideSite(), Choose, None, [Call(0), Call(1)], w);
  }

  /** The contract is respected and the site is valid, but after the second execution the opcode is
      not that of the cached kind. */
  lemma WideSiteGoesWrong(initial: nat, w: int)
    ensures WideSite().Valid() && Total(WideSite().AllSpecs()) == 150
    ensures Respects(WideSite(), None, [Call(0), Call(1)], w)
    ensures Installed(WideSite(), None, None, [Call(0), Call(1)], w) == [128, 0]
    ensures OpcodeAfter(initial, Installed(WideSite(), None, None, [Call(0), Call(1)], w)) != VariantOpcode(initial, 0)
  {
    hide KindOf, OpcodeAfter, VariantOpcode, Total, Respects, Installed, Site.Valid, Effect.Fits, Capture;
    WideStarts();
    WideRespects(w);
    WideKinds();
    var s := WideSite();
    assert s.body(Call(0), w) == Run(2, [28], true, w);
    TwoInstalled(s, Call(0), Call(1), w);
    OpcodeGoesWrong(initial);
  }
}
