/** What a run of an inline-cache site does, told by a log: the world is a sequence of events to which
    the body and the effects append. Every execution leaves its events in order, cached or not. */
module IcLog {
  import opened Wrappers
  import opened IcSpecialization
  import opened IcCaptures
  import opened IcSite
  import InterpreterIc
  import JitIc

  datatype Event =
    | BodyRan(input: Input)
    | EffectRan(effect: nat, capture: seq<int>)

  type Log = seq<Event>

  /** What the body decides on one execution: whether it writes to the log, and which effect it calls
      with which values, if any. */
  datatype Decision = Decision(writes: bool, call: Option<Call>)

  datatype Call = Call(effect: nat, vals: seq<int>, cacheable: bool)

  /** A site whose body and effects do nothing but write to the log and return it. */
  function LogSite(effects: seq<Effect>, decide: Input -> Decision): Site<Log, Log>
  {
    Site(effects,
         (input: Input, log: Log) =>
           var d := decide(input);
           var log1 := if d.writes then log + [BodyRan(input)] else log;
           match d.call
           case None => NoEffect(log1, log1)
           case Some(c) => Run(c.effect, c.vals, c.cacheable, log1),
         (e: nat, capture: seq<int>, log: Log) => (log + [EffectRan(e, capture)], log + [EffectRan(e, capture)]))
  }

  // ---------------------------------------------------------------- what the log must say

  /** The value a lambda must find at place `p`: the main function's if the capture is one of its
      own, and the body's otherwise. */
  function ValueAt(mains: seq<nat>, mainVals: seq<int>, p: nat, own: int): int
    requires |mains| == |mainVals|
  {
    if |mains| == 0 then own
    else if mains[0] == p then mainVals[0]
    else ValueAt(mains[1..], mainVals[1..], p, own)
  }

  function Struct(e: Effect, vals: seq<int>, mainVals: seq<int>): seq<int>
    requires |vals| == e.width && |mainVals| == |e.mains|
  {
    seq(e.width, p requires 0 <= p < e.width => ValueAt(e.mains, mainVals, p, vals[p]))
  }

  predicate Legal(effects: seq<Effect>, d: Decision, input: Input)
  {
    d.call.Some? ==>
      var c := d.call.value;
      && c.effect < |effects| && |c.vals| == effects[c.effect].width
      && c.effect < |input.mains| && |input.mains[c.effect]| == |effects[c.effect].mains|
  }

  /** One execution: the body's event, if it writes one, and then the effect's. */
  function EventsOf(effects: seq<Effect>, d: Decision, input: Input): Log
    requires Legal(effects, d, input)
  {
    (if d.writes then [BodyRan(input)] else [])
    + (if d.call.None? then []
       else
         var c := d.call.value;
         [EffectRan(c.effect, Struct(effects[c.effect], c.vals, input.mains[c.effect]))])
  }

  /** All executions, in order. */
  function Story(effects: seq<Effect>, decide: Input -> Decision, inputs: seq<Input>): Log
    requires forall i :: 0 <= i < |inputs| ==> Legal(effects, decide(inputs[i]), inputs[i])
  {
    if |inputs| == 0 then []
    else EventsOf(effects, decide(inputs[0]), inputs[0]) + Story(effects, decide, inputs[1..])
  }

  lemma {:induction false} ValueAtIs(mains: seq<nat>, mainVals: seq<int>, p: nat, own: int)
    requires |mains| == |mainVals|
    requires forall i, j :: 0 <= i < j < |mains| ==> mains[i] != mains[j]
    ensures p !in mains ==> ValueAt(mains, mainVals, p, own) == own
    ensures forall i :: 0 <= i < |mains| && mains[i] == p ==> ValueAt(mains, mainVals, p, own) == mainVals[i]
  {
    if |mains| != 0 {
      ValueAtIs(mains[1..], mainVals[1..], p, own);
      assert mains == [mains[0]] + mains[1..];
      assert forall i :: 0 < i < |mains| ==> mains[1..][i - 1] == mains[i] && mainVals[1..][i - 1] == mainVals[i];
    }
  }

  lemma CaptureIsStruct(e: Effect, vals: seq<int>, mainVals: seq<int>)
    requires e.Valid() && |vals| == e.width && |mainVals| == |e.mains|
    ensures Capture(e, vals, mainVals) == Struct(e, vals, mainVals)
  {
    TargetAt(e, vals, mainVals);
    var st := Capture(e, vals, mainVals);
    forall p | 0 <= p < e.width ensures st[p] == Struct(e, vals, mainVals)[p] {
      ValueAtIs(e.mains, mainVals, p, vals[p]);
      if p in e.mains {
        var i :| 0 <= i < |e.mains| && e.mains[i] == p;
        assert st[e.mains[i]] == mainVals[i];
      }
    }
  }

  // ---------------------------------------------------------------- trivial lowering

  lemma StepEvents(effects: seq<Effect>, decide: Input -> Decision, input: Input, log: Log)
    requires
      var s := LogSite(effects, decide);
      s.Valid() && s.ValidInput(input) && s.ValidOutcome(s.body(input, log))
    ensures Legal(effects, decide(input), input)
    ensures
      var log1 := log + EventsOf(effects, decide(input), input);
      TrivialStep(LogSite(effects, decide), input, log) == (log1, log1)
  {
    hide Effect.Valid, Capture, Total, Struct;
    var d := decide(input);
    var body := if d.writes then [BodyRan(input)] else [];
    assert log + body == if d.writes then log + [BodyRan(input)] else log;
    if d.call.None? {
      assert body + [] == body;
    } else {
      var c := d.call.value;
      CallShape(effects, decide, input, log);
      CaptureIsStruct(effects[c.effect], c.vals, input.mains[c.effect]);
      var effect := [EffectRan(c.effect, Struct(effects[c.effect], c.vals, input.mains[c.effect]))];
      assert log + body + effect == log + (body + effect);
    }
  }

  lemma CallShape(effects: seq<Effect>, decide: Input -> Decision, input: Input, log: Log)
    requires
      var s := LogSite(effects, decide);
      s.Valid() && s.ValidInput(input) && s.ValidOutcome(s.body(input, log))
    requires decide(input).call.Some?
    ensures
      var c := decide(input).call.value;
      && c.effect < |effects| && effects[c.effect].Valid() && |c.vals| == effects[c.effect].width
      && c.effect < |input.mains| && |input.mains[c.effect]| == |effects[c.effect].mains|
  {
    hide Effect.Valid, Total;
  }

  /** Execution `i` of a run returns the log with exactly the events of the executions so far. */
  lemma {:induction false} TrivialRunTellsStory(effects: seq<Effect>, decide: Input -> Decision,
                                                impossible: Option<int>, inputs: seq<Input>, log: Log)
    requires
      var s := LogSite(effects, decide);
      s.Valid() && Respects(s, impossible, inputs, log)
    ensures forall i :: 0 <= i < |inputs| ==> Legal(effects, decide(inputs[i]), inputs[i])
    ensures
      var results := TrivialRun(LogSite(effects, decide), impossible, inputs, log);
      && |results| == |inputs|
      && forall i :: 0 <= i < |inputs| ==> results[i] == log + Story(effects, decide, inputs[..i + 1])
    decreases |inputs|
  {
    hide Respects, TrivialRun, TrivialStep, Constant, Site.Valid, Site.ValidOutcome, Site.ValidInput, LogSite, EventsOf;
    var s := LogSite(effects, decide);
    if |inputs| == 0 {
      NoResults(s, impossible, log);
    } else {
      var first, rest := inputs[0], inputs[1..];
      assert inputs == [first] + rest;
      StepFacts(s, impossible, first, rest, log);
      StepEvents(effects, decide, first, log);
      var log1 := log + EventsOf(effects, decide(first), first);
      TrivialRunTellsStory(effects, decide, impossible, rest, log1);
      forall i | 0 <= i < |inputs|
        ensures Legal(effects, decide(inputs[i]), inputs[i])
      {
        if i > 0 { assert inputs[i] == rest[i - 1]; }
      }
      var results := TrivialRun(s, impossible, inputs, log);
      forall i | 0 <= i < |inputs|
        ensures results[i] == log + Story(effects, decide, inputs[..i + 1])
      {
        assert inputs[..i + 1][0] == first && inputs[..i + 1][1..] == rest[..i];
        if i > 0 { assert results[i] == TrivialRun(s, impossible, rest, log1)[i - 1]; }
      }
    }
  }

  lemma NoResults(s: Site<Log, Log>, impossible: Option<int>, log: Log)
    requires s.Valid() && Respects(s, impossible, [], log)
    ensures TrivialRun(s, impossible, [], log) == []
  {
  }

  // ---------------------------------------------------------------- the caches

  /** The interpreter's cache tells the same story. */
  method InterpreterTellsStory(effects: seq<Effect>, decide: Input -> Decision, impossible: Option<int>,
                               inputs: seq<Input>, log: Log, memory: int, stateBytes: nat,
                               undefinedStruct: nat -> seq<int>)
    returns (results: seq<Log>)
    requires LogSite(effects, decide).Valid() && Respects(LogSite(effects, decide), impossible, inputs, log)
    requires forall i :: 0 <= i < |effects| ==> StateSize(effects[i].locals) <= stateBytes
    requires forall n: nat :: |undefinedStruct(n)| == n
    ensures forall i :: 0 <= i < |inputs| ==> Legal(effects, decide(inputs[i]), inputs[i])
    ensures |results| == |inputs|
    ensures forall i :: 0 <= i < |inputs| ==> results[i] == log + Story(effects, decide, inputs[..i + 1])
  {
    hide Respects, Site.Valid, TrivialRun, Story;
    var site := LogSite(effects, decide);
    var kind, opcode;
    results, kind, opcode :=
      InterpreterIc.RunCache(site, impossible, false, 0, inputs, log, memory, stateBytes, undefinedStruct);
    TrivialRunTellsStory(effects, decide, impossible, inputs, log);
  }

  /** So does the JIT's chain of stubs. */
  method JitTellsStory(effects: seq<Effect>, decide: Input -> Decision, codeBase: int, smcStart: int, slowPath: int,
                       slabKinds: set<nat>, slabJumpEnd: int, inputs: seq<Input>, log: Log, addresses: seq<int>,
                       undefinedStruct: nat -> seq<int>)
    returns (results: seq<Log>)
    requires LogSite(effects, decide).Valid() && LogSite(effects, decide).InWords()
    requires Respects(LogSite(effects, decide), None, inputs, log)
    requires JitIc.InReach(codeBase, smcStart + 5) && JitIc.InReach(codeBase, slowPath)
    requires JitIc.InReach(codeBase, slabJumpEnd) && |addresses| == |inputs|
    requires forall i :: 0 <= i < |addresses| ==> JitIc.InReach(codeBase, addresses[i]) && addresses[i] != slowPath
    requires forall i, j :: 0 <= i < j < |addresses| ==> addresses[i] != addresses[j]
    requires forall n: nat :: |undefinedStruct(n)| == n
    ensures forall i :: 0 <= i < |inputs| ==> Legal(effects, decide(inputs[i]), inputs[i])
    ensures |results| == |inputs|
    ensures forall i :: 0 <= i < |inputs| ==> results[i] == log + Story(effects, decide, inputs[..i + 1])
  {
    hide Respects, Site.Valid, TrivialRun, Story;
    var site := LogSite(effects, decide);
    var entries;
    results, entries := JitIc.RunJit(site, codeBase, smcStart, slowPath, slabKinds, slabJumpEnd, inputs, log, addresses,
                                     undefinedStruct);
    TrivialRunTellsStory(effects, decide, None, inputs, log);
  }
}
