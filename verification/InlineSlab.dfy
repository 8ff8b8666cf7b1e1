/** Choosing the size of the inline slab and padding every stub that goes into it. */
module InlineSlab {
  import opened Wrappers
  import opened Words
  import opened NopFill

  const MAX_SLAB_SIZE := 64
  const EXTRA_TOLERANCE := 12

  /** The code of one effect that may go into the slab. */
  datatype Candidate = Candidate(effect: nat, code: seq<u8>, tailJumpRemoved: bool)

  datatype Slab = Slab(size: nat, stubs: seq<Candidate>)

  // ---------------------------------------------------------------- specification

  /** How many sizes are at most `limit`. */
  function CountFitting(sizes: seq<nat>, limit: nat): (n: nat)
    ensures n <= |sizes|
  {
    if sizes == [] then 0 else (if sizes[0] <= limit then 1 else 0) + CountFitting(sizes[1..], limit)
  }

  /** The smallest limit under which enough stubs fit. */
  ghost predicate SmallestCover(sizes: seq<nat>, required: nat, limit: nat)
  {
    && CountFitting(sizes, limit) >= required
    && forall smaller: nat :: smaller < limit ==> CountFitting(sizes, smaller) < required
  }

  /** The largest size that is at most `limit`. */
  ghost predicate LargestWithin(sizes: seq<nat>, limit: nat, size: nat)
  {
    size in sizes && size <= limit && forall s :: s in sizes && s <= limit ==> s <= size
  }

  function Sizes(stubs: seq<Candidate>): (sizes: seq<nat>)
    ensures |sizes| == |stubs| && forall i :: 0 <= i < |stubs| ==> sizes[i] == |stubs[i].code|
  {
    seq(|stubs|, i requires 0 <= i < |stubs| => |stubs[i].code|)
  }

  /** The stubs that fit, in their order. */
  function Fitting(stubs: seq<Candidate>, size: nat): (kept: seq<Candidate>)
    ensures forall i :: 0 <= i < |kept| ==> kept[i] in stubs && |kept[i].code| <= size
    ensures forall c :: c in stubs && |c.code| <= size ==> c in kept
  {
    if stubs == [] then []
    else if |stubs[0].code| <= size then [stubs[0]] + Fitting(stubs[1..], size)
    else Fitting(stubs[1..], size)
  }

  lemma {:induction false} FittingCount(stubs: seq<Candidate>, size: nat)
    ensures |Fitting(stubs, size)| == CountFitting(Sizes(stubs), size)
  {
    if stubs != [] {
      FittingCount(stubs[1..], size);
      assert Sizes(stubs)[1..] == Sizes(stubs[1..]);
    }
  }

  lemma {:induction false} CountMonotone(sizes: seq<nat>, a: nat, b: nat)
    requires a <= b
    ensures CountFitting(sizes, a) <= CountFitting(sizes, b)
  {
    if sizes != [] { CountMonotone(sizes[1..], a, b); }
  }

  // ---------------------------------------------------------------- sorting

  predicate Ascending(s: seq<nat>) { forall i, j :: 0 <= i < j < |s| ==> s[i] <= s[j] }

  function Insert(x: nat, s: seq<nat>): (r: seq<nat>)
    requires Ascending(s)
    ensures Ascending(r) && |r| == |s| + 1
    ensures forall y :: y in r <==> y == x || y in s
  {
    if s == [] || x <= s[0] then [x] + s
    else
      var r := Insert(x, s[1..]);
      assert forall y :: y in s[1..] ==> y in s;
      assert forall i :: 0 <= i < |r| ==> r[i] in r;
      [s[0]] + r
  }

  function Sort(s: seq<nat>): (r: seq<nat>)
    ensures Ascending(r) && |r| == |s|
    ensures forall y :: y in r <==> y in s
  {
    if s == [] then [] else Insert(s[0], Sort(s[1..]))
  }

  lemma {:induction false} CountInsert(x: nat, s: seq<nat>, limit: nat)
    requires Ascending(s)
    ensures CountFitting(Insert(x, s), limit) == (if x <= limit then 1 else 0) + CountFitting(s, limit)
  {
    if s == [] || x <= s[0] {
      assert ([x] + s)[1..] == s;
    } else {
      CountInsert(x, s[1..], limit);
      var r := Insert(x, s[1..]);
      assert ([s[0]] + r)[1..] == r;
    }
  }

  lemma {:induction false} CountSorted(s: seq<nat>, limit: nat)
    ensures CountFitting(Sort(s), limit) == CountFitting(s, limit)
  {
    if s != [] {
      CountSorted(s[1..], limit);
      CountInsert(s[0], Sort(s[1..]), limit);
    }
  }

  /** In ascending order, the n-th size fits exactly when n sizes fit. */
  lemma {:induction false} NthFits(s: seq<nat>, n: nat, limit: nat)
    requires Ascending(s) && 1 <= n <= |s|
    ensures s[n - 1] <= limit <==> CountFitting(s, limit) >= n
  {
    if s[0] > limit {
      NoneFits(s, limit);
    } else if n > 1 {
      NthFits(s[1..], n - 1, limit);
    }
  }

  lemma {:induction false} NoneFits(s: seq<nat>, limit: nat)
    requires forall i :: 0 <= i < |s| ==> s[i] > limit
    ensures CountFitting(s, limit) == 0
  {
    if s != [] { NoneFits(s[1..], limit); }
  }

  // ---------------------------------------------------------------- choosing the size

  /** The slab exists exactly when enough stubs fit its largest allowed size; then its size is that
      of the largest stub within the tolerance of the smallest size that covers enough stubs. */
  method ChooseSize(sizes: seq<nat>, required: nat) returns (size: Option<nat>)
    requires required >= 1 && forall i :: 0 <= i < |sizes| ==> sizes[i] >= 5
    ensures size.Some? <==> CountFitting(sizes, 64) >= required
    ensures size.Some? ==> 5 <= size.value <= 64 && CountFitting(sizes, size.value) >= required
    ensures size.Some? ==> exists cover: nat ::
      SmallestCover(sizes, required, cover) &&
      LargestWithin(sizes, if cover + 12 < 64 then cover + 12 else 64, size.value)
  {
    hide SmallestCover, CountFitting, Sort;
    if |sizes| < required { return None; }
    var sorted := Sort(sizes);
    var cover := sorted[required - 1];
    CoverFacts(sizes, required);
    assert CountFitting(sizes, cover) >= required;
    if cover > MAX_SLAB_SIZE { return None; }
    var limit := if cover + EXTRA_TOLERANCE < MAX_SLAB_SIZE then cover + EXTRA_TOLERANCE else MAX_SLAB_SIZE;
    var largest := 0;
    for i := 0 to |sorted|
      invariant largest <= limit && (largest == 0 || largest in sorted)
      invariant forall j :: 0 <= j < i && sorted[j] <= limit ==> sorted[j] <= largest
    {
      if sorted[i] <= limit && sorted[i] > largest { largest := sorted[i]; }
    }
    assert cover in sorted && cover <= largest;
    CountMonotone(sizes, cover, largest);
    CountMonotone(sizes, cover, MAX_SLAB_SIZE);
    assert LargestWithin(sizes, limit, largest);
    size := Some(largest);
  }

  lemma CoverFacts(sizes: seq<nat>, required: nat)
    requires 1 <= required <= |sizes|
    ensures SmallestCover(sizes, required, Sort(sizes)[required - 1])
    ensures CountFitting(sizes, Sort(sizes)[required - 1]) >= required
    ensures Sort(sizes)[required - 1] <= MAX_SLAB_SIZE <==> CountFitting(sizes, MAX_SLAB_SIZE) >= required
  {
    forall limit: nat
      ensures Sort(sizes)[required - 1] <= limit <==> CountFitting(sizes, limit) >= required
    {
      NthFits(Sort(sizes), required, limit);
      CountSorted(sizes, limit);
    }
  }

  // ---------------------------------------------------------------- padding

  /** The padded code starts with the stub and goes on with whole NOPs, behind a short jump if they
      would be run and are sixteen bytes or more. Running off the end of a stub whose tail jump was
      removed takes one instruction at most and arrives exactly at the end of the slab. */
  ghost predicate PaddedTo(stub: Candidate, padded: Candidate, size: nat)
  {
    && |stub.code| <= size == |padded.code|
    && padded == stub.(code := padded.code)
    && padded.code[..|stub.code|] == stub.code
    && (stub.tailJumpRemoved && |stub.code| < size ==> Step(padded.code, |stub.code|) == Some(size))
    && (if stub.tailJumpRemoved && size - |stub.code| >= 16 then
          padded.code[|stub.code|] == 0xeb && IsNops(padded.code[|stub.code| + 2..])
        else IsNops(padded.code[|stub.code|..]))
  }

  method Pad(stub: Candidate, size: nat) returns (padded: Candidate)
    requires |stub.code| <= size <= |stub.code| + 129
    ensures PaddedTo(stub, padded, size)
  {
    hide NopLength, IsNops;
    var code := new u8[size](i => if 0 <= i < |stub.code| then stub.code[i] else 0);
    var nopBegin := |stub.code|;
    var bytesToFill := size - nopBegin;
    assert code[..nopBegin] == stub.code;
    if bytesToFill >= 16 && stub.tailJumpRemoved {
      code[nopBegin] := 0xeb;
      code[nopBegin + 1] := bytesToFill - 2;
      nopBegin := nopBegin + 2;
      bytesToFill := bytesToFill - 2;
    }
    ghost var before := code[..];
    FillAddressRange(code, nopBegin, bytesToFill);
    padded := stub.(code := code[..]);
    assert before[..nopBegin] == code[..nopBegin];
    PaddingRuns(stub, before, padded.code, nopBegin, size);
  }

  /** What stands before and behind `nopBegin` decides where the padding goes. */
  lemma PaddingRuns(stub: Candidate, before: seq<u8>, code: seq<u8>, nopBegin: nat, size: nat)
    requires |stub.code| <= nopBegin <= size == |code| == |before|
    requires before[..nopBegin] == code[..nopBegin] && before[..|stub.code|] == stub.code
    requires IsNops(code[nopBegin..size])
        && (1 <= size - nopBegin <= 15 ==> NopLength(code[nopBegin..size]) == size - nopBegin)
    requires nopBegin == |stub.code| ==> !stub.tailJumpRemoved || size - nopBegin < 16
    requires nopBegin > |stub.code| ==>
      && stub.tailJumpRemoved && nopBegin == |stub.code| + 2 && 14 <= size - nopBegin < 128
      && before[|stub.code|] == 0xeb && before[|stub.code| + 1] == size - nopBegin
    ensures PaddedTo(stub, stub.(code := code), size)
  {
    hide NopLength, IsNops;
    assert code[..|stub.code|] == code[..nopBegin][..|stub.code|] == before[..nopBegin][..|stub.code|];
    assert code[nopBegin..] == code[nopBegin..size];
    if nopBegin > |stub.code| {
      assert code[|stub.code|] == before[..nopBegin][|stub.code|];
      assert code[|stub.code| + 1] == before[..nopBegin][|stub.code| + 1];
      assert code[|stub.code| + 2..] == code[nopBegin..size];
      JumpIsNoNop(code[|stub.code|..]);
    }
  }

  lemma JumpIsNoNop(code: seq<u8>)
    requires |code| > 0 && code[0] == 0xeb
    ensures NopLength(code) == 0
  {
  }

  // ---------------------------------------------------------------- the whole decision

  /** The slab keeps exactly the stubs that fit, at least the required number, each padded to
      exactly the size of the largest of them. */
  method BuildSlab(candidates: seq<Candidate>, required: nat) returns (slab: Option<Slab>)
    requires required >= 1 && forall i :: 0 <= i < |candidates| ==> |candidates[i].code| >= 5
    ensures slab.Some? <==> CountFitting(Sizes(candidates), 64) >= required
    ensures slab.Some? ==>
      var Slab(size, stubs) := slab.value;
      var kept := Fitting(candidates, size);
      && 5 <= size <= 64
      && (exists cover: nat ::
            SmallestCover(Sizes(candidates), required, cover) &&
            LargestWithin(Sizes(candidates), if cover + 12 < 64 then cover + 12 else 64, size))
      && |stubs| == |kept| >= required
      && (exists i :: 0 <= i < |kept| && |kept[i].code| == size)
      && (forall i :: 0 <= i < |stubs| ==> PaddedTo(kept[i], stubs[i], size))
  {
    hide NopLength, IsNops, PaddedTo, CountFitting, SmallestCover, Fitting;
    var chosen := ChooseSize(Sizes(candidates), required);
    if chosen.None? { return None; }
    var size := chosen.value;
    var kept := Fitting(candidates, size);
    FittingCount(candidates, size);
    LargestIsKept(Sizes(candidates), candidates, size);
    var stubs := [];
    for i := 0 to |kept|
      invariant |stubs| == i && forall j :: 0 <= j < i ==> PaddedTo(kept[j], stubs[j], size)
    {
      var padded := Pad(kept[i], size);
      stubs := stubs + [padded];
    }
    slab := Some(Slab(size, stubs));
  }

  lemma LargestIsKept(sizes: seq<nat>, candidates: seq<Candidate>, size: nat)
    requires sizes == Sizes(candidates) && size in sizes
    ensures exists i :: 0 <= i < |Fitting(candidates, size)| && |Fitting(candidates, size)[i].code| == size
  {
    var i :| 0 <= i < |candidates| && |candidates[i].code| == size;
    assert candidates[i] in Fitting(candidates, size);
  }
}
