/** Effect ordinals of an inline cache. Each specialized capture contributes one digit of a
    mixed-radix number: the emitted code computes the number from the captured values, and the
    wrapper generator takes it apart again. */
module IcSpecialization {
  import opened Wrappers
  import opened Arith

  /** One specialized capture: its place in the capture struct, whether the listed values are all
      the values it can have, and the list. */
  datatype Spec = Spec(ord: nat, isFullCoverage: bool, values: seq<int>)
  {
    /** Digits: one per listed value, and one more for the generic fallback. */
    function Count(): nat { |values| + (if isFullCoverage then 0 else 1) }

    predicate Valid() { |values| > 0 && forall i, j :: 0 <= i < j < |values| ==> values[i] != values[j] }

    /** Values the capture may have at run time. */
    predicate Accepts(v: int) { isFullCoverage ==> v in values }
  }

  // ---------------------------------------------------------------- one digit

  /** The emitted switch: the position of `v`, or one past the list. */
  function Digit(s: Spec, v: int, from: nat): (d: nat)
    requires from <= |s.values|
    ensures from <= d <= |s.values|
    ensures d < |s.values| ==> s.values[d] == v
    decreases |s.values| - from
  {
    if from == |s.values| || s.values[from] == v then from else Digit(s, v, from + 1)
  }

  lemma {:induction false} DigitFound(s: Spec, v: int, from: nat)
    requires from <= |s.values|
    ensures Digit(s, v, from) == |s.values| <==> v !in s.values[from..]
    decreases |s.values| - from
  {
    if from < |s.values| && s.values[from] != v {
      DigitFound(s, v, from + 1);
      assert s.values[from..] == [s.values[from]] + s.values[from + 1..];
    }
  }

  /** What a digit stands for: a constant, or the generic fallback. */
  function Choice(s: Spec, digit: nat): Option<int>
  {
    if digit < |s.values| then Some(s.values[digit]) else None
  }

  function ChoiceFor(s: Spec, v: int): Option<int> { if v in s.values then Some(v) else None }

  lemma DigitChoice(s: Spec, v: int)
    requires s.Valid() && s.Accepts(v)
    ensures Digit(s, v, 0) < s.Count() && Choice(s, Digit(s, v, 0)) == ChoiceFor(s, v)
  {
    DigitFound(s, v, 0);
    assert s.values[0..] == s.values;
  }

  // ---------------------------------------------------------------- the mixed-radix number

  predicate ValidSpecs(specs: seq<Spec>) { forall i :: 0 <= i < |specs| ==> specs[i].Valid() }

  /** The number of combinations. */
  function Combinations(specs: seq<Spec>): nat
  {
    if |specs| == 0 then 1 else Times(specs[0].Count(), Combinations(specs[1..]))
  }

  function Times(a: nat, b: nat): nat { a * b }

  predicate DigitsOf(specs: seq<Spec>, digits: seq<nat>)
  {
    |digits| == |specs| && forall i :: 0 <= i < |specs| ==> digits[i] < specs[i].Count()
  }

  /** Least significant digit first. */
  function Number(specs: seq<Spec>, digits: seq<nat>): nat
    requires |digits| == |specs|
  {
    if |specs| == 0 then 0 else digits[0] + Times(specs[0].Count(), Number(specs[1..], digits[1..]))
  }

  function Digits(specs: seq<Spec>, number: nat): (digits: seq<nat>)
    requires ValidSpecs(specs)
    ensures |digits| == |specs|
  {
    if |specs| == 0 then [] else
    (Quotient(number, specs[0].Count()); [number % specs[0].Count()] + Digits(specs[1..], number / specs[0].Count()))
  }

  lemma Quotient(n: nat, d: nat)
    requires d > 0
    ensures n / d >= 0 && n == (n / d) * d + n % d
  {
    DivBound(n, d);
  }

  lemma {:induction false} NumberBound(specs: seq<Spec>, digits: seq<nat>)
    requires ValidSpecs(specs) && DigitsOf(specs, digits)
    ensures Number(specs, digits) < Combinations(specs)
  {
    if |specs| != 0 {
      NumberBound(specs[1..], digits[1..]);
      RemainderRange(specs[0].Count(), Combinations(specs[1..]), digits[0], Number(specs[1..], digits[1..]));
      assert Number(specs[1..], digits[1..]) * specs[0].Count()
          == Times(specs[0].Count(), Number(specs[1..], digits[1..]));
    }
  }

  /** Taking the number apart gives the digits back. */
  lemma {:induction false} DigitsOfNumber(specs: seq<Spec>, digits: seq<nat>)
    requires ValidSpecs(specs) && DigitsOf(specs, digits)
    ensures Digits(specs, Number(specs, digits)) == digits
  {
    if |specs| != 0 {
      var c, rest := specs[0].Count(), Number(specs[1..], digits[1..]);
      DigitsOfNumber(specs[1..], digits[1..]);
      Split(digits[0], c, rest);
    }
  }

  lemma Split(d: nat, c: nat, rest: nat)
    requires d < c
    ensures (d + Times(c, rest)) % c == d && (d + Times(c, rest)) / c == rest
  {
    assert d + Times(c, rest) == rest * c + d;
    DivModUnique(d + Times(c, rest), c, rest, d);
  }

  /** Every number below the number of combinations is the number of its own digits. */
  lemma {:induction false} NumberOfDigits(specs: seq<Spec>, number: nat)
    requires ValidSpecs(specs) && number < Combinations(specs)
    ensures DigitsOf(specs, Digits(specs, number)) && Number(specs, Digits(specs, number)) == number
  {
    if |specs| != 0 {
      var c := specs[0].Count();
      Quotient(number, c);
      var q := number / c;
      QuotientBound(number, c, Combinations(specs[1..]));
      NumberOfDigits(specs[1..], q);
      var digits := Digits(specs, number);
      assert digits[1..] == Digits(specs[1..], q);
      assert Times(c, q) == q * c;
    }
  }

  lemma QuotientBound(n: nat, c: nat, m: nat)
    requires c > 0 && n < Times(c, m)
    ensures n / c < m
  {
    Quotient(n, c);
    FactorBound(n / c, m, c);
  }

  // ---------------------------------------------------------------- run time: from values to ordinal

  predicate Arguments(specs: seq<Spec>, args: seq<int>)
  {
    |args| == |specs| && forall i :: 0 <= i < |specs| ==> specs[i].Accepts(args[i])
  }

  function DigitsFor(specs: seq<Spec>, args: seq<int>): (digits: seq<nat>)
    requires |args| == |specs|
    ensures |digits| == |specs|
  {
    seq(|specs|, i requires 0 <= i < |specs| => Digit(specs[i], args[i], 0))
  }

  /** The ordinal, relative to the start of the effect's block. */
  function OrdinalFor(specs: seq<Spec>, args: seq<int>): nat
    requires |args| == |specs|
  {
    Number(specs, DigitsFor(specs, args))
  }

  /** Product of the counts before position `i`: the weight of digit `i`. */
  function Weight(specs: seq<Spec>, i: nat): nat
    requires i <= |specs|
  {
    if i == 0 then 1 else Times(Weight(specs, i - 1), specs[i - 1].Count())
  }

  function WeightedSum(specs: seq<Spec>, digits: seq<nat>, i: nat): nat
    requires |digits| == |specs| && i <= |specs|
  {
    if i == 0 then 0 else WeightedSum(specs, digits, i - 1) + Times(digits[i - 1], Weight(specs, i - 1))
  }

  /** Weights built up front to back, as in the emitted sum, give the nested number. */
  lemma {:induction false} WeightedIsNested(specs: seq<Spec>, digits: seq<nat>, i: nat)
    requires |digits| == |specs| && i <= |specs|
    ensures WeightedSum(specs, digits, |specs|)
            == WeightedSum(specs, digits, i) + Times(Weight(specs, i), Number(specs[i..], digits[i..]))
    decreases |specs| - i
  {
    if i < |specs| {
      WeightedIsNested(specs, digits, i + 1);
      assert specs[i..][1..] == specs[i + 1..] && digits[i..][1..] == digits[i + 1..];
      var w, c, d, r := Weight(specs, i), specs[i].Count(), digits[i], Number(specs[i + 1..], digits[i + 1..]);
      assert Times(w, d + Times(c, r)) == Times(d, w) + Times(Times(w, c), r) by { Regroup(w, c, d, r); }
    } else {
      assert specs[i..] == [] && digits[i..] == [];
    }
  }

  lemma Regroup(w: int, c: int, d: int, r: int)
    ensures w * (d + c * r) == d * w + w * c * r
  {
  }

  lemma TimesAssoc(w: nat, c: nat, r: nat)
    ensures Times(w, Times(c, r)) == Times(Times(w, c), r) && Times(1, r) == r
  {
    assert w * (c * r) == w * c * r;
  }

  lemma {:induction false} WeightIsProduct(specs: seq<Spec>, i: nat)
    requires i <= |specs|
    ensures Combinations(specs) == Times(Weight(specs, i), Combinations(specs[i..]))
  {
    hide Times;
    if i == 0 {
      assert specs[0..] == specs;
      TimesAssoc(1, 1, Combinations(specs));
    } else {
      WeightIsProduct(specs, i - 1);
      assert specs[i - 1..][1..] == specs[i..];
      TimesAssoc(Weight(specs, i - 1), specs[i - 1].Count(), Combinations(specs[i..]));
    }
  }

  lemma {:induction false} SumBelowWeight(specs: seq<Spec>, digits: seq<nat>, i: nat)
    requires DigitsOf(specs, digits) && i <= |specs|
    ensures WeightedSum(specs, digits, i) < Weight(specs, i)
  {
    if i != 0 {
      SumBelowWeight(specs, digits, i - 1);
      RemainderRange(Weight(specs, i - 1), specs[i - 1].Count(), WeightedSum(specs, digits, i - 1), digits[i - 1]);
    }
  }

  lemma {:induction false} CombinationsPositive(specs: seq<Spec>)
    requires ValidSpecs(specs)
    ensures Combinations(specs) >= 1
  {
    if |specs| != 0 {
      CombinationsPositive(specs[1..]);
      MulAtLeast(specs[0].Count(), Combinations(specs[1..]));
    }
  }

  lemma DigitsForValid(specs: seq<Spec>, args: seq<int>)
    requires ValidSpecs(specs) && Arguments(specs, args)
    ensures DigitsOf(specs, DigitsFor(specs, args))
  {
    forall i | 0 <= i < |specs| ensures DigitsFor(specs, args)[i] < specs[i].Count() {
      DigitChoice(specs[i], args[i]);
    }
  }

  /** The emitted ordinal getter: digit times weight, summed up in 8 bits from the start of the
      effect's block. No step overflows as long as the block ends below 250. */
  method ComputeOrdinal(specs: seq<Spec>, args: seq<int>, startOrd: nat) returns (sum: nat)
    requires ValidSpecs(specs) && Arguments(specs, args)
    requires startOrd + Combinations(specs) < 250
    ensures sum == startOrd + OrdinalFor(specs, args)
    ensures startOrd <= sum < startOrd + Combinations(specs)
  {
    hide Digit, Combinations;
    ghost var digits := DigitsFor(specs, args);
    DigitsForValid(specs, args);
    var curWeight := 1;
    sum := startOrd;
    for i := 0 to |specs|
      invariant curWeight == Weight(specs, i) && sum == startOrd + WeightedSum(specs, digits, i)
    {
      var digit := Digit(specs[i], args[i], 0);
      StepFits(specs, digits, i);
      assert curWeight < 256 && digit < 256;
      var term := digit * curWeight;
      assert term < 256 && sum + term < 256;
      sum := sum + term;
      curWeight := curWeight * specs[i].Count();
    }
    WeightedIsNested(specs, digits, 0);
    assert specs[0..] == specs && digits[0..] == digits;
    NumberBound(specs, digits);
  }

  lemma StepFits(specs: seq<Spec>, digits: seq<nat>, i: nat)
    requires ValidSpecs(specs) && DigitsOf(specs, digits) && i < |specs|
    ensures Weight(specs, i) <= Combinations(specs) && digits[i] < Combinations(specs)
    ensures WeightedSum(specs, digits, i) + Times(digits[i], Weight(specs, i)) < Combinations(specs)
  {
    SumBelowWeight(specs, digits, i + 1);
    WeightAtMost(specs, i);
    WeightAtMost(specs, i + 1);
    SumBelowWeight(specs, digits, i);
    DigitAtMost(Weight(specs, i), specs[i].Count());
  }

  lemma DigitAtMost(w: nat, c: nat)
    requires w >= 1
    ensures c <= Times(w, c)
  {
    MulAtLeast(w, c);
  }

  lemma WeightAtMost(specs: seq<Spec>, i: nat)
    requires ValidSpecs(specs) && i <= |specs|
    ensures Weight(specs, i) <= Combinations(specs)
  {
    WeightIsProduct(specs, i);
    CombinationsPositive(specs[i..]);
    MulAtLeast(Combinations(specs[i..]), Weight(specs, i));
  }

  // ---------------------------------------------------------------- generation time: from ordinal to constants

  function Choices(specs: seq<Spec>, digits: seq<nat>): seq<Option<int>>
    requires |digits| == |specs|
  {
    seq(|specs|, i requires 0 <= i < |specs| => Choice(specs[i], digits[i]))
  }

  /** The wrapper generator: peel off one digit per specialized capture. */
  method DecodeOrdinal(specs: seq<Spec>, specializationOrd: nat) returns (choices: seq<Option<int>>)
    requires ValidSpecs(specs) && specializationOrd < Combinations(specs)
    ensures choices == Choices(specs, Digits(specs, specializationOrd))
    ensures forall i :: 0 <= i < |specs| && specs[i].isFullCoverage ==> choices[i].Some?
  {
    hide Combinations;
    ghost var digits := Digits(specs, specializationOrd);
    NumberOfDigits(specs, specializationOrd);
    var tmp := specializationOrd;
    choices := [];
    assert specs[0..] == specs && digits[0..] == digits;
    for i := 0 to |specs|
      invariant tmp >= 0 && |choices| == i
      invariant Digits(specs[i..], tmp) == digits[i..]
      invariant forall j :: 0 <= j < i ==> choices[j] == Choice(specs[j], digits[j])
    {
      assert specs[i..][0] == specs[i] && specs[i..][1..] == specs[i + 1..];
      var cnt := specs[i].Count();
      Quotient(tmp, cnt);
      var option := tmp % cnt;
      tmp := tmp / cnt;
      assert digits[i..][0] == digits[i] && digits[i..][1..] == digits[i + 1..];
      assert option == digits[i];
      if option < |specs[i].values| {
        choices := choices + [Some(specs[i].values[option])];
      } else {
        assert !specs[i].isFullCoverage;
        choices := choices + [None];
      }
    }
  }

  /** Generator and emitted code agree: the ordinal computed from the captured values decodes to
      the constant each capture equals, or to the generic fallback. */
  lemma DecodeComputedOrdinal(specs: seq<Spec>, args: seq<int>)
    requires ValidSpecs(specs) && Arguments(specs, args)
    ensures OrdinalFor(specs, args) < Combinations(specs)
    ensures
      var choices := Choices(specs, Digits(specs, OrdinalFor(specs, args)));
      forall i :: 0 <= i < |specs| ==> choices[i] == ChoiceFor(specs[i], args[i])
  {
    hide Digit, Combinations, Number;
    var digits := DigitsFor(specs, args);
    DigitsForValid(specs, args);
    NumberBound(specs, digits);
    DigitsOfNumber(specs, digits);
    forall i | 0 <= i < |specs| ensures Choice(specs[i], digits[i]) == ChoiceFor(specs[i], args[i]) {
      DigitChoice(specs[i], args[i]);
    }
  }

  // ---------------------------------------------------------------- blocks of several effects

  /** Where the block of effect `e` starts. */
  function Start(effects: seq<seq<Spec>>, e: nat): nat
    requires e <= |effects|
  {
    if e == 0 then 0 else Start(effects, e - 1) + Combinations(effects[e - 1])
  }

  function Total(effects: seq<seq<Spec>>): nat { Start(effects, |effects|) }

  predicate InBlock(effects: seq<seq<Spec>>, kind: nat, e: nat)
    requires e < |effects|
  {
    Start(effects, e) <= kind < Start(effects, e) + Combinations(effects[e])
  }

  lemma {:induction false} StartsAscend(effects: seq<seq<Spec>>, e: nat, f: nat)
    requires e < f <= |effects|
    ensures Start(effects, e) + Combinations(effects[e]) <= Start(effects, f)
  {
    hide Combinations;
    if e + 1 < f {
      StartsAscend(effects, e, f - 1);
    }
  }

  /** The blocks tile the range of kinds: every kind lies in exactly one block. */
  lemma {:induction false} BlocksTile(effects: seq<seq<Spec>>, kind: nat) returns (e: nat)
    requires kind < Total(effects)
    ensures e < |effects| && InBlock(effects, kind, e)
    ensures forall f :: 0 <= f < |effects| && f != e ==> !InBlock(effects, kind, f)
  {
    hide Combinations;
    e := LastStart(effects, kind, |effects|);
    forall f | 0 <= f < |effects| && f != e ensures !InBlock(effects, kind, f) {
      if f < e { StartsAscend(effects, f, e); } else { StartsAscend(effects, e, f); }
    }
  }

  lemma {:induction false} LastStart(effects: seq<seq<Spec>>, kind: nat, n: nat) returns (e: nat)
    requires n <= |effects| && kind < Start(effects, n)
    ensures e < n && InBlock(effects, kind, e)
  {
    hide Combinations;
    if kind >= Start(effects, n - 1) {
      e := n - 1;
    } else {
      e := LastStart(effects, kind, n - 1);
    }
  }
}
