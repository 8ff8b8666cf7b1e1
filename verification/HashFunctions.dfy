/** String hashing on top of XXH3: one contiguous string, a string in pieces, and arbitrary runs
    of calls on one streaming state. */
module HashFunctions {
  import opened Wrappers
  import opened Arith
  import opened Words
  import opened Xxh3Hash
  import opened Xxh3Inverse
  import opened Xxh3Runtime
  import opened Xxh3Stream

  datatype StringLengthAndHash = StringLengthAndHash(length: u64, hashValue: u64)

  method HashString(k: Kernel, builtin: Secret192, s: seq<u8>) returns (h: u64)
    ensures h == HashDefault(k, builtin, s)
    ensures forall t: seq<u8> | t != s && |t| <= 8 && |s| <= 8 && (|t| == |s| || (1 <= |t| <= 3 && 1 <= |s| <= 3)) ::
      HashDefault(k, builtin, t) != h
  {
    hide HashDefault;
    h := Xxh3Bits64(k, builtin, s);
    forall t: seq<u8> | t != s && |t| <= 8 && |s| <= 8 && (|t| == |s| || (1 <= |t| <= 3 && 1 <= |s| <= 3))
      ensures HashDefault(k, builtin, t) != h
    {
      ShortNamesDiffer(k, builtin, s, t);
    }
  }

  /** Different strings of one to three bytes, and different strings of equal length up to eight, have
      different hashes, whatever the built-in secret. */
  lemma ShortNamesDiffer(k: Kernel, builtin: Secret192, s: seq<u8>, t: seq<u8>)
    requires s != t && |s| <= 8 && |t| <= 8
    requires |s| == |t| || (1 <= |s| <= 3 && 1 <= |t| <= 3)
    ensures HashDefault(k, builtin, s) != HashDefault(k, builtin, t)
  {
    hide Xxh3Hash.Hash;
    ShortStringsDiffer(k, s, t, builtin, 0, builtin);
  }

  /** The pieces hash like the string they make up, whose length is also returned. The state is
      uninitialised stack memory: whatever seed and secret pointer it holds do not matter. */
  method HashMultiPieceString(k: Kernel, builtin: Secret192, pieces: seq<seq<u8>>, stackSeed: u64,
                              stackSecret: Option<seq<u8>>)
    returns (r: StringLengthAndHash)
    requires |Concat(pieces)| < TWO64
    ensures r.length == |Concat(pieces)|
    ensures r.hashValue == HashDefault(k, builtin, Concat(pieces))
  {
    hide State.Ready, HashDefault;
    var state := new State.Uninitialised(k, builtin, stackSeed, stackSecret);
    var err := state.Reset();
    assert err == Ok;
    var totalLength := 0;
    assert pieces[..0] == [];
    for i := 0 to |pieces|
      invariant state.Ready() && state.mode == Default && state.data == Concat(pieces[..i])
      invariant totalLength == |Concat(pieces[..i])| % TWO64
    {
      totalLength := (totalLength + |pieces[i]|) % TWO64;
      err := state.Update(Some(pieces[i]));
      assert err == Ok;
      assert pieces[..i + 1][..i] == pieces[..i];
      WrapSum64(|Concat(pieces[..i])|, |pieces[i]|);
    }
    assert pieces[..|pieces|] == pieces;
    var hash := state.Digest();
    r := StringLengthAndHash(totalLength, hash);
  }

  // ---------------------------------------------------------------- runs of calls on one state

  datatype Call =
    | Reset
    | ResetWithSecret(secret: Option<seq<u8>>, secretSize: u64)
    | ResetWithSeed(seed: u64)
    | ResetWithSecretAndSeed(secret: Option<seq<u8>>, secretSize: u64, seed: u64)
    | Update(piece: Option<seq<u8>>)
    | Digest

  /** All that a caller can tell about the state: the last reset and the bytes since. */
  datatype View = View(mode: Mode, data: seq<u8>)

  predicate SecretAccepted(secret: Option<seq<u8>>) { secret.Some? && |secret.value| >= 136 }

  function Next(v: View, call: Call): View
  {
    match call
    case Reset => View(Default, [])
    case ResetWithSecret(secret, _) => View(if SecretAccepted(secret) then WithSecret(secret.value) else Unset, [])
    case ResetWithSeed(seed) => View(WithSeed(seed), [])
    case ResetWithSecretAndSeed(secret, _, seed) =>
      if SecretAccepted(secret) then View(WithSecretAndSeed(secret.value, seed), []) else v
    case Update(piece) => v.(data := v.data + (if piece.Some? then piece.value else []))
    case Digest => v
  }

  /** What the API asks of its caller: the size passed is the size of the secret, and a state takes
      input only after an accepted reset, less than 2^64 bytes of it before a digest. */
  predicate Allowed(v: View, call: Call)
  {
    match call
    case ResetWithSecret(secret, size) => secret.Some? ==> |secret.value| == size
    case ResetWithSecretAndSeed(secret, size, _) => secret.Some? ==> |secret.value| == size
    case Update(_) => v.mode != Unset
    case Digest => v.mode != Unset && |v.data| < TWO64
    case _ => true
  }

  predicate AllowedRun(v: View, calls: seq<Call>)
    decreases |calls|
  {
    |calls| == 0 || (Allowed(v, calls[0]) && AllowedRun(Next(v, calls[0]), calls[1..]))
  }

  /** The one-shot hashes that the digests of a run must return. */
  function Expected(k: Kernel, builtin: Secret192, v: View, calls: seq<Call>): seq<u64>
    requires AllowedRun(v, calls)
    decreases |calls|
  {
    if |calls| == 0 then [] else
    (if calls[0].Digest? then [OneShot(k, builtin, v.mode, v.data)] else [])
        + Expected(k, builtin, Next(v, calls[0]), calls[1..])
  }

  /** Any run of resets, updates and digests on one state: every digest is the one-shot hash, in
      the mode of the last accepted reset, of exactly the bytes given since. */
  method RunStream(k: Kernel, builtin: Secret192, calls: seq<Call>, memorySeed: u64, memorySecret: Option<seq<u8>>)
    returns (digests: seq<u64>)
    requires AllowedRun(View(Unset, []), calls)
    ensures digests == Expected(k, builtin, View(Unset, []), calls)
  {
    hide OneShot, Expected, AllowedRun, Matches, Next;
    assert calls[0..] == calls && calls[|calls|..] == [];
    RunEnds(k, builtin);
    var state := State.Create(k, builtin, memorySeed, memorySecret);
    digests := [];
    ghost var v := View(Unset, []);
    FreshMatches(state);
    for i := 0 to |calls|
      invariant fresh(state) && fresh(state.buffer) && fresh(state.customSecret)
      invariant state.kernel == k && state.builtin == builtin
      invariant Matches(state, v) && AllowedRun(v, calls[i..])
      invariant digests + Expected(k, builtin, v, calls[i..]) == Expected(k, builtin, View(Unset, []), calls)
    {
      RunStep(k, builtin, v, calls, i);
      var out := OneCall(state, calls[i], v);
      digests := digests + out;
      v := Next(v, calls[i]);
    }
  }

  /** A string handed over piece by piece. */
  function Updates(pieces: seq<seq<u8>>): (calls: seq<Call>)
    ensures |calls| == |pieces|
  {
    seq(|pieces|, i requires 0 <= i < |pieces| => Update(Some(pieces[i])))
  }

  lemma {:induction false} ConcatFront(pieces: seq<seq<u8>>)
    requires |pieces| > 0
    ensures Concat(pieces) == pieces[0] + Concat(pieces[1..])
  {
    var n := |pieces| - 1;
    if n > 0 {
      ConcatFront(pieces[..n]);
      assert pieces[..n][1..] == pieces[1..][..n - 1] && pieces[1..][n - 1] == pieces[n];
    } else {
      assert pieces[..n] == [] && pieces[1..] == [];
    }
  }

  lemma {:induction false} UpdatesThenDigest(k: Kernel, builtin: Secret192, v: View, pieces: seq<seq<u8>>)
    requires v.mode != Unset && |v.data + Concat(pieces)| < TWO64
    ensures AllowedRun(v, Updates(pieces) + [Digest])
    ensures Expected(k, builtin, v, Updates(pieces) + [Digest])
        == [OneShot(k, builtin, v.mode, v.data + Concat(pieces))]
    decreases |pieces|
  {
    hide OneShot;
    var calls := Updates(pieces) + [Digest];
    if |pieces| == 0 {
      assert calls[1..] == [] && v.data + Concat(pieces) == v.data;
    } else {
      ConcatFront(pieces);
      var next := v.(data := v.data + pieces[0]);
      assert calls[0] == Update(Some(pieces[0])) && calls[1..] == Updates(pieces[1..]) + [Digest];
      assert v.data + Concat(pieces) == next.data + Concat(pieces[1..]);
      UpdatesThenDigest(k, builtin, next, pieces[1..]);
    }
  }

  /** The ordinary use, one accepted reset, any pieces, and a digest, is an allowed run in each of the
      four modes, and expects the one-shot hash of that mode. */
  lemma OrdinaryRun(k: Kernel, builtin: Secret192, reset: Call, pieces: seq<seq<u8>>)
    requires !reset.Update? && !reset.Digest? && |Concat(pieces)| < TWO64
    requires reset.ResetWithSecret? || reset.ResetWithSecretAndSeed? ==>
      reset.secret.Some? && |reset.secret.value| == reset.secretSize >= 136
    ensures AllowedRun(View(Unset, []), [reset] + (Updates(pieces) + [Digest]))
    ensures Expected(k, builtin, View(Unset, []), [reset] + (Updates(pieces) + [Digest])) ==
      [if reset.ResetWithSecret? then HashWithSecret(k, Concat(pieces), reset.secret.value)
       else if reset.ResetWithSeed? then HashWithSeed(k, builtin, Concat(pieces), reset.seed)
       else if reset.ResetWithSecretAndSeed? then
         HashWithSecretAndSeed(k, builtin, Concat(pieces), reset.secret.value, reset.seed)
       else HashDefault(k, builtin, Concat(pieces))]
  {
    hide HashDefault, HashWithSecret, HashWithSeed, HashWithSecretAndSeed;
    var calls := [reset] + (Updates(pieces) + [Digest]);
    assert calls[0] == reset && calls[1..] == Updates(pieces) + [Digest];
    assert [] + Concat(pieces) == Concat(pieces);
    UpdatesThenDigest(k, builtin, Next(View(Unset, []), reset), pieces);
  }

  lemma RunStep(k: Kernel, builtin: Secret192, v: View, calls: seq<Call>, i: nat)
    requires i < |calls| && AllowedRun(v, calls[i..])
    ensures Allowed(v, calls[i]) && AllowedRun(Next(v, calls[i]), calls[i + 1..])
    ensures Expected(k, builtin, v, calls[i..])
            == (if calls[i].Digest? then [OneShot(k, builtin, v.mode, v.data)] else [])
               + Expected(k, builtin, Next(v, calls[i]), calls[i + 1..])
  {
    hide OneShot;
    assert calls[i..][0] == calls[i] && calls[i..][1..] == calls[i + 1..];
  }

  lemma FreshMatches(state: State)
    requires state.SecretCached() && state.mode == Unset
    ensures Matches(state, View(Unset, []))
  {
  }

  lemma RunEnds(k: Kernel, builtin: Secret192)
    ensures forall v :: AllowedRun(v, []) && Expected(k, builtin, v, []) == []
  {
  }

  ghost predicate Matches(state: State, v: View)
    reads state, state.customSecret, state.buffer
  {
    && state.SecretCached()
    && state.mode == v.mode
    && (v.mode != Unset ==> state.Ready() && state.data == v.data)
  }

  method OneCall(state: State, call: Call, ghost v: View) returns (out: seq<u64>)
    requires Matches(state, v) && Allowed(v, call)
    modifies state, state.buffer, state.customSecret
    ensures Matches(state, Next(v, call))
    ensures out == if call.Digest? then [OneShot(state.kernel, state.builtin, v.mode, v.data)] else []
  {
    hide OneShot, State.Ready;
    out := [];
    match call
    case Reset =>
      var _ := state.Reset();
    case ResetWithSecret(secret, size) =>
      var _ := state.ResetWithSecret(secret, size);
    case ResetWithSeed(seed) =>
      var _ := state.ResetWithSeed(seed);
    case ResetWithSecretAndSeed(secret, size, seed) =>
      var _ := state.ResetWithSecretAndSeed(secret, size, seed);
    case Update(piece) =>
      var _ := state.Update(piece);
    case Digest =>
      var h := state.Digest();
      out := [h];
  }
}
