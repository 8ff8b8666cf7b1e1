/** The XXH3 streaming state: a 256-byte buffer, a stripe counter inside the current block, and
    accumulators, updated in place. Whatever way the input is cut into updates, and however the
    state was reset, the digest is the one-shot hash of the concatenated input. */
module Xxh3Stream {
  import opened Wrappers
  import opened Arith
  import opened Words
  import opened Xxh3Kernel
  import opened Xxh3Hash
  import opened Xxh3Stripes
  import opened Xxh3Runtime

  datatype ErrorCode = Ok | Error

  /** How the state was last reset; `Unset` before the first reset and after a refused one. */
  datatype Mode =
    | Unset
    | Default
    | WithSecret(secret: Secret)
    | WithSeed(seed: u64)
    | WithSecretAndSeed(secret: Secret, seed: u64)

  /** The one-shot hash that a state in this mode must reproduce. */
  function OneShot(k: Kernel, builtin: Secret192, mode: Mode, input: seq<u8>): u64
    requires mode != Unset
  {
    match mode
    case Default => HashDefault(k, builtin, input)
    case WithSecret(secret) => HashWithSecret(k, input, secret)
    case WithSeed(seed) => HashWithSeed(k, builtin, input, seed)
    case WithSecretAndSeed(secret, seed) => HashWithSecretAndSeed(k, builtin, input, secret, seed)
  }

  /** The secret that long inputs use in this mode. */
  function LongSecret(builtin: Secret192, mode: Mode): Secret
    requires mode != Unset
  {
    match mode
    case Default => builtin
    case WithSecret(secret) => secret
    case WithSeed(seed) => if seed == 0 then builtin else DeriveSecret(builtin, seed)
    case WithSecretAndSeed(secret, _) => secret
  }

  function ShortSecret(builtin: Secret192, mode: Mode): Secret
  {
    if mode.WithSecret? then mode.secret else builtin
  }

  function ShortSeed(mode: Mode): u64
  {
    if mode.WithSeed? || mode.WithSecretAndSeed? then mode.seed else 0
  }

  lemma OneShotParts(k: Kernel, builtin: Secret192, mode: Mode, input: seq<u8>)
    requires mode != Unset
    ensures OneShot(k, builtin, mode, input)
            == if |input| <= 240 then ShortHash(input, ShortSecret(builtin, mode), ShortSeed(mode))
               else LongHash(k, input, LongSecret(builtin, mode))
  {
    hide ShortHash, LongHash, DeriveSecret;
  }

  const BUFFER_SIZE := 256
  const BUFFER_STRIPES := 4

  /** `memcpy` into part of an array. */
  method CopyInto(dst: array<u8>, at: nat, src: seq<u8>)
    requires at + |src| <= dst.Length
    modifies dst
    ensures forall j :: 0 <= j < dst.Length ==>
      dst[j] == if at <= j < at + |src| then src[j - at] else old(dst[j])
  {
    forall j | 0 <= j < |src| {
      dst[at + j] := src[j];
    }
  }

  /** The last 64 bytes of the buffer, where not overwritten, are the stripe before the buffered bytes. */
  ghost predicate TailKept(buffer: seq<u8>, bufferedSize: nat, consumed: nat, all: seq<u8>)
  {
    && |buffer| == 256
    && 64 * consumed <= |all|
    && (consumed > 0 ==> forall j :: 192 <= j < 256 && bufferedSize <= j ==> buffer[j] == all[64 * consumed - 256 + j])
  }

  lemma TailCopied(buffer: seq<u8>, data: seq<u8>, input: seq<u8>, pos: nat, consumed: nat)
    requires |buffer| == 256 && 64 <= pos <= |input| && 64 * consumed == |data| + pos
    requires forall j :: 192 <= j < 256 ==> buffer[j] == input[pos - 64..pos][j - 192]
    ensures forall bufferedSize: nat :: TailKept(buffer, bufferedSize, consumed, data + input)
  {
    forall j | 192 <= j < 256 ensures buffer[j] == (data + input)[64 * consumed - 256 + j] {
      assert input[pos - 64..pos][j - 192] == input[pos - 256 + j];
    }
  }

  lemma SameBytes(before: seq<u8>, input: seq<u8>, pos: nat, n: nat)
    requires pos + n <= |input|
    ensures input[pos..pos + n] == (before + input)[|before| + pos..|before| + pos + n]
  {
  }

  class State {
    const kernel: Kernel
    const builtin: Secret192
    const customSecret: array<u8>
    const buffer: array<u8>
    var acc: Acc
    var bufferedSize: nat
    var useSeed: bool
    var nbStripesSoFar: nat
    var totalLen: u64
    var nbStripesPerBlock: nat
    var secretLimit: nat
    var seed: u64
    var extSecret: Option<seq<u8>>

    /** Everything hashed since the last reset, and how many of its stripes were taken in. */
    ghost var data: seq<u8>
    ghost var consumed: nat
    ghost var mode: Mode

    ghost predicate Shape()
    {
      customSecret.Length == 192 && buffer.Length == 256 && customSecret != buffer
    }

    /** Skipping the derivation of the custom secret for an unchanged seed is sound. */
    ghost predicate SecretCached()
      reads this`extSecret, this`seed, customSecret
    {
      Shape() && (extSecret.None? && seed != 0 ==> customSecret[..] == DeriveSecret(builtin, seed))
    }

    function ActiveSecret(): seq<u8>
      reads this`extSecret, customSecret
    {
      match extSecret case None => customSecret[..] case Some(s) => s
    }

    /** The fields agree with the way the state was reset. */
    ghost predicate ModeFields()
      reads this`mode, this`extSecret, this`seed, this`useSeed
    {
      match mode
      case Unset => false
      case Default => extSecret == Some(builtin) && seed == 0 && !useSeed
      case WithSecret(s) => extSecret == Some(s) && seed == 0 && !useSeed
      case WithSeed(s) =>
        seed == s && (if s == 0 then extSecret == Some(builtin) && !useSeed else extSecret == None && useSeed)
      case WithSecretAndSeed(s, sd) => extSecret == Some(s) && seed == sd && useSeed
    }

    ghost predicate SecretFields()
      reads this`mode, this`extSecret, this`seed, this`useSeed, this`secretLimit, this`nbStripesPerBlock, customSecret
    {
      && SecretCached()
      && ModeFields()
      && |ActiveSecret()| >= 136
      && secretLimit == |ActiveSecret()| - 64
      && nbStripesPerBlock == StripesPerBlock(ActiveSecret())
    }

    /** The accumulators are the fold of exactly the stripes taken in, and the counter is the
        position in the current block. */
    ghost predicate Folded(all: seq<u8>)
      reads this`mode, this`extSecret, this`seed, this`useSeed, this`secretLimit, this`nbStripesPerBlock, customSecret
      reads this`acc, this`nbStripesSoFar, this`consumed
    {
      && SecretFields()
      && 64 * consumed <= |all|
      && Progress(acc, nbStripesSoFar) == Feed(kernel, ActiveSecret(), all, consumed)
    }

    ghost predicate Ready()
      reads this, customSecret, buffer
    {
      && Folded(data)
      && |data| == 64 * consumed + bufferedSize
      && bufferedSize <= 256
      && (consumed > 0 ==> bufferedSize > 0 && |data| > 256)
      && buffer[..bufferedSize] == data[64 * consumed..]
      && TailKept(buffer[..], bufferedSize, consumed, data)
      && totalLen == |data| % TWO64
    }

    lemma SecretSizes()
      requires SecretFields()
      ensures Shape() && SecretCached() && |ActiveSecret()| >= 136 && secretLimit == |ActiveSecret()| - 64
      ensures nbStripesPerBlock == StripesPerBlock(ActiveSecret())
    {
      hide DeriveSecret, StripesPerBlock;
    }

    // -------------------------------------------------------------- creation and resets

    /** Stack memory: every field, the seed included, is whatever was there before. */
    constructor Uninitialised(kernel: Kernel, builtin: Secret192, oldSeed: u64, oldExtSecret: Option<seq<u8>>)
      ensures Shape() && mode == Unset && fresh(customSecret) && fresh(buffer)
      ensures this.kernel == kernel && this.builtin == builtin
      ensures seed == oldSeed && extSecret == oldExtSecret
    {
      this.kernel := kernel;
      this.builtin := builtin;
      customSecret := new u8[192];
      buffer := new u8[256];
      acc := InitAcc();
      bufferedSize, useSeed, nbStripesSoFar, totalLen := 0, false, 0, 0;
      nbStripesPerBlock, secretLimit := 0, 0;
      seed, extSecret := oldSeed, oldExtSecret;
      data, consumed, mode := [], 0, Unset;
    }

    /** `XXH3_createState`: of the memory it gets, only the seed is set. */
    static method Create(kernel: Kernel, builtin: Secret192, oldSeed: u64, oldExtSecret: Option<seq<u8>>)
      returns (state: State)
      ensures fresh(state) && fresh(state.customSecret) && fresh(state.buffer)
      ensures state.SecretCached() && state.mode == Unset && state.kernel == kernel && state.builtin == builtin
    {
      state := new State.Uninitialised(kernel, builtin, oldSeed, oldExtSecret);
      state.seed := 0;
    }

    method ResetInternal(seed: u64, secret: Option<seq<u8>>, secretSize: u64)
      requires Shape()
      modifies this
      ensures bufferedSize == 0 && nbStripesSoFar == 0 && totalLen == 0 && acc == InitAcc()
      ensures this.seed == seed && useSeed == (seed != 0) && extSecret == secret
      ensures secretLimit == (secretSize - 64) % TWO64 && nbStripesPerBlock == secretLimit / 8
      ensures data == [] && consumed == 0 && mode == old(mode)
    {
      bufferedSize, useSeed, nbStripesSoFar, totalLen := 0, false, 0, 0;
      acc := InitAcc();
      this.seed := seed;
      useSeed := seed != 0;
      extSecret := secret;
      secretLimit := (secretSize - 64) % TWO64;
      nbStripesPerBlock := secretLimit / 8;
      data, consumed := [], 0;
    }

    /** What every accepted reset leaves behind is a state ready for input. */
    lemma FreshIsReady()
      requires SecretCached() && ModeFields() && |ActiveSecret()| >= 136
      requires secretLimit == |ActiveSecret()| - 64 && nbStripesPerBlock == secretLimit / 8
      requires bufferedSize == 0 && nbStripesSoFar == 0 && totalLen == 0 && acc == InitAcc()
      requires data == [] && consumed == 0
      ensures Ready()
    {
      hide DeriveSecret;
    }

    method Reset() returns (r: ErrorCode)
      requires Shape()
      modifies this
      ensures Ready() && SecretCached() && data == [] && mode == Default && r == Ok
    {
      hide DeriveSecret, Feed, StripesPerBlock;
      ResetInternal(0, Some(builtin), 192);
      mode := Default;
      FreshIsReady();
      r := Ok;
    }

    method ResetWithSecret(secret: Option<seq<u8>>, secretSize: u64) returns (r: ErrorCode)
      requires Shape()
      requires secret.Some? ==> |secret.value| == secretSize
      modifies this
      ensures SecretCached()
      ensures r == Ok <==> secret.Some? && secretSize >= 136
      ensures if r == Ok then Ready() && data == [] && mode == WithSecret(secret.value) else mode == Unset
    {
      hide DeriveSecret, Feed, StripesPerBlock;
      ResetInternal(0, secret, secretSize);
      mode := Unset;
      if secret.None? { return Error; }
      if secretSize < SECRET_SIZE_MIN { return Error; }
      mode := WithSecret(secret.value);
      FreshIsReady();
      r := Ok;
    }

    method ResetWithSeed(newSeed: u64) returns (r: ErrorCode)
      requires SecretCached()
      modifies this, customSecret
      ensures Ready() && SecretCached() && data == [] && mode == WithSeed(newSeed) && r == Ok
    {
      hide DeriveSecret, Feed, StripesPerBlock;
      if newSeed == 0 {
        r := Reset();
        mode := WithSeed(0);
        return;
      }
      if newSeed != seed || extSecret.Some? {
        InitCustomSecret(builtin, customSecret, newSeed);
      }
      ResetInternal(newSeed, None, SECRET_DEFAULT_SIZE);
      mode := WithSeed(newSeed);
      FreshIsReady();
      r := Ok;
    }

    method ResetWithSecretAndSeed(secret: Option<seq<u8>>, secretSize: u64, newSeed: u64) returns (r: ErrorCode)
      requires SecretCached()
      requires secret.Some? ==> |secret.value| == secretSize
      modifies this
      ensures SecretCached()
      ensures r == Ok <==> secret.Some? && secretSize >= 136
      ensures r == Ok ==> Ready() && data == [] && mode == WithSecretAndSeed(secret.value, newSeed)
      ensures r == Error ==> mode == old(mode) && data == old(data) && (old(Ready()) ==> Ready())
    {
      hide DeriveSecret, Feed, StripesPerBlock;
      if secret.None? { return Error; }
      if secretSize < SECRET_SIZE_MIN { return Error; }
      ResetInternal(newSeed, secret, secretSize);
      useSeed := true;
      mode := WithSecretAndSeed(secret.value, newSeed);
      FreshIsReady();
      r := Ok;
    }

    // -------------------------------------------------------------- update

    /** Between the pieces of an update: `at` bytes of `all` are taken in and nothing is buffered. */
    ghost predicate Ingesting(all: seq<u8>, at: nat)
      reads this`mode, this`extSecret, this`seed, this`useSeed, this`secretLimit, this`nbStripesPerBlock, customSecret
      reads this`acc, this`nbStripesSoFar, this`consumed, this`bufferedSize
    {
      Folded(all) && bufferedSize == 0 && 64 * consumed == at
    }

    method Update(piece: Option<seq<u8>>) returns (r: ErrorCode)
      requires Ready()
      modifies this, buffer
      ensures Ready() && SecretCached() && r == Ok && mode == old(mode)
      ensures data == old(data) + (if piece.Some? then piece.value else [])
    {
      hide Feed, StripesPerBlock, State.SecretFields;
      SecretSizes();
      if piece.None? { return Ok; }
      var input := piece.value;
      ghost var all := data + input;
      FeedOfPrefix(kernel, ActiveSecret(), data, input, consumed);
      TakeIn(input, all);
      assert (|data| % TWO64 + |input|) % TWO64 == |all| % TWO64 by { WrapSum64(|data|, |input|); }
      totalLen := (totalLen + |input|) % TWO64;
      data := all;
      r := Ok;
    }

    /** Buffer the input, or take in stripes and buffer the rest. */
    method TakeIn(input: seq<u8>, ghost all: seq<u8>)
      requires Folded(all) && all == data + input && buffer.Length == 256
      requires |data| == 64 * consumed + bufferedSize && bufferedSize <= 256
      requires consumed > 0 ==> bufferedSize > 0 && |data| > 256
      requires buffer[..bufferedSize] == data[64 * consumed..] && TailKept(buffer[..], bufferedSize, consumed, data)
      modifies this`acc, this`nbStripesSoFar, this`bufferedSize, this`consumed, buffer
      ensures Folded(all) && |all| == 64 * consumed + bufferedSize && bufferedSize <= 256
      ensures consumed > 0 ==> bufferedSize > 0 && |all| > 256
      ensures buffer[..bufferedSize] == all[64 * consumed..] && TailKept(buffer[..], bufferedSize, consumed, all)
    {
      hide Feed, StripesPerBlock, State.SecretFields;
      SecretSizes();
      assert bufferedSize <= BUFFER_SIZE;
      if bufferedSize + |input| <= BUFFER_SIZE {
        BufferWhole(input);
      } else {
        var pos := IngestAllButTail(input, all);
        BufferTail(input, pos, all);
      }
    }

    /** Small input: append it to the buffer. */
    method BufferWhole(input: seq<u8>)
      requires Shape() && bufferedSize + |input| <= 256
      requires |data| == 64 * consumed + bufferedSize && buffer[..bufferedSize] == data[64 * consumed..]
      requires TailKept(buffer[..], bufferedSize, consumed, data)
      modifies this`bufferedSize, buffer
      ensures bufferedSize == old(bufferedSize) + |input|
      ensures buffer[..bufferedSize] == (data + input)[64 * consumed..]
      ensures TailKept(buffer[..], bufferedSize, consumed, data + input)
    {
      CopyInto(buffer, bufferedSize, input);
      bufferedSize := bufferedSize + |input|;
      assert buffer[..bufferedSize] == (data + input)[64 * consumed..];
    }

    /** Some remaining input (always): buffer it. */
    method BufferTail(input: seq<u8>, pos: nat, ghost all: seq<u8>)
      requires Shape() && pos < |input| <= pos + 256 && all == data + input
      requires bufferedSize == 0 && 64 * consumed == |data| + pos && TailKept(buffer[..], bufferedSize, consumed, all)
      modifies this`bufferedSize, buffer
      ensures bufferedSize == |input| - pos
      ensures buffer[..bufferedSize] == all[64 * consumed..] && TailKept(buffer[..], bufferedSize, consumed, all)
    {
      CopyInto(buffer, 0, input[pos..]);
      bufferedSize := |input| - pos;
      assert buffer[..bufferedSize] == all[64 * consumed..];
    }

    /** Total input is now more than the buffer holds: take in all but the last 1 to 256 bytes. */
    method IngestAllButTail(input: seq<u8>, ghost all: seq<u8>) returns (pos: nat)
      requires Folded(all) && TailKept(buffer[..], bufferedSize, consumed, all) && buffer.Length == 256
      requires bufferedSize <= 256 < bufferedSize + |input|
      requires all == data + input && |data| == 64 * consumed + bufferedSize
      requires consumed > 0 ==> bufferedSize > 0
      requires buffer[..bufferedSize] == data[64 * consumed..]
      modifies this`acc, this`nbStripesSoFar, this`bufferedSize, this`consumed, buffer
      ensures pos < |input| <= pos + 256
      ensures Ingesting(all, |data| + pos) && TailKept(buffer[..], bufferedSize, consumed, all)
    {
      hide Feed, StripesPerBlock, State.SecretFields;
      SecretSizes();
      pos := 0;
      if bufferedSize != 0 {
        pos := FillBuffer(input, all);
      }
      assert pos < |input|;
      if |input| - pos > nbStripesPerBlock * 64 {
        pos := IngestBlocks(input, pos, all);
      } else if |input| - pos > BUFFER_SIZE {
        pos := IngestBuffers(input, pos, all);
      }
    }

    /** Complete a partly filled buffer and take it in. */
    method FillBuffer(input: seq<u8>, ghost all: seq<u8>) returns (pos: nat)
      requires Folded(all) && TailKept(buffer[..], bufferedSize, consumed, all) && buffer.Length == 256
      requires 0 < bufferedSize <= 256 < bufferedSize + |input|
      requires all == data + input && |data| == 64 * consumed + bufferedSize
      requires buffer[..bufferedSize] == data[64 * consumed..]
      modifies this`acc, this`nbStripesSoFar, this`bufferedSize, this`consumed, buffer
      ensures pos == 256 - old(bufferedSize) < |input|
      ensures Ingesting(all, |data| + pos) && TailKept(buffer[..], bufferedSize, consumed, all) && consumed > 0
    {
      hide Feed, StripesPerBlock, State.SecretFields;
      SecretSizes();
      var loadSize := BUFFER_SIZE - bufferedSize;
      CopyInto(buffer, bufferedSize, input[..loadSize]);
      pos := loadSize;
      assert buffer[..] == all[64 * consumed..64 * (consumed + 4)];
      assert buffer[..][0..256] == buffer[..];
      acc, nbStripesSoFar := ConsumeStripes(kernel, acc, nbStripesSoFar, buffer[..], 0, BUFFER_STRIPES, ActiveSecret(),
                                            all, consumed);
      consumed := consumed + 4;
      bufferedSize := 0;
    }

    /** More than a block left: join to the end of the current block, then block after block. */
    method IngestBlocks(input: seq<u8>, start: nat, ghost all: seq<u8>) returns (pos: nat)
      requires Ingesting(all, |data| + start) && buffer.Length == 256
      requires all == data + input
      requires start <= |input| && |input| - start > nbStripesPerBlock * 64
      modifies this`acc, this`nbStripesSoFar, this`consumed, buffer
      ensures pos < |input| <= pos + 64
      ensures Ingesting(all, |data| + pos) && TailKept(buffer[..], bufferedSize, consumed, all) && consumed > 0
    {
      hide State.Ingesting, TailKept;
      IngestingFacts(all, |data| + start);
      var nbStripes;
      pos, nbStripes := IngestWholeBlocks(input, start, all);
      StripesLeft(|input| - 1 - pos, nbStripes);
      AccumulateRest(input, pos, nbStripes, ActiveSecret(), all);
      pos := pos + nbStripes * 64;
      assert pos < |input|;
      IngestingFacts(all, |data| + pos);
      KeepPredecessor(input, pos, all);
      assert |input| - pos <= 64;
    }

    /** Up to the end of the current block, and then block after block. */
    method IngestWholeBlocks(input: seq<u8>, start: nat, ghost all: seq<u8>) returns (pos: nat, nbStripes: nat)
      requires Ingesting(all, |data| + start) && all == data + input
      requires start <= |input| && |input| - start > nbStripesPerBlock * 64
      modifies this`acc, this`nbStripesSoFar, this`consumed
      ensures start + 64 <= pos < |input| && nbStripes == (|input| - 1 - pos) / 64 < nbStripesPerBlock
      ensures Ingesting(all, |data| + pos) && nbStripesSoFar == 0
    {
      hide State.Ingesting;
      IngestingFacts(all, |data| + start);
      var secret := ActiveSecret();
      pos := start;
      nbStripes := (|input| - 1 - pos) / 64;
      EnoughStripes(|input| - 1 - pos, nbStripesPerBlock);
      assert nbStripesPerBlock >= nbStripesSoFar;
      var toEnd := nbStripesPerBlock - nbStripesSoFar;
      assert toEnd <= nbStripes;
      StripesLeft(|input| - 1 - pos, toEnd);
      AccumulateBlock(input, pos, toEnd, secret, all);
      pos := pos + toEnd * 64;
      nbStripes := nbStripes - toEnd;
      while nbStripes >= nbStripesPerBlock
        invariant start + 64 <= pos < |input| && nbStripes == (|input| - 1 - pos) / 64
        invariant Ingesting(all, |data| + pos) && nbStripesSoFar == 0 && secret == ActiveSecret()
      {
        StripesLeft(|input| - 1 - pos, nbStripesPerBlock);
        AccumulateBlock(input, pos, nbStripesPerBlock, secret, all);
        pos := pos + nbStripesPerBlock * 64;
        nbStripes := nbStripes - nbStripesPerBlock;
      }
    }

    lemma IngestingFacts(all: seq<u8>, at: nat)
      requires Ingesting(all, at)
      ensures Shape() && |ActiveSecret()| >= 136 && nbStripesPerBlock > nbStripesSoFar
      ensures bufferedSize == 0 && 64 * consumed == at
    {
      hide Feed, StripesPerBlock, State.SecretFields;
      SecretSizes();
    }

    /** Buffer the predecessor of the last partial stripe. */
    method KeepPredecessor(input: seq<u8>, pos: nat, ghost all: seq<u8>)
      requires buffer.Length == 256 && 64 <= pos <= |input| && all == data + input && 64 * consumed == |data| + pos
      modifies buffer
      ensures TailKept(buffer[..], bufferedSize, consumed, all)
    {
      CopyInto(buffer, 192, input[pos - 64..pos]);
      TailCopied(buffer[..], data, input, pos, consumed);
    }

    /** `n` stripes of the current block, straight from the input. */
    method AccumulateFrom(input: seq<u8>, pos: nat, n: nat, secret: Secret, ghost all: seq<u8>) returns (a: Acc)
      requires Ingesting(all, |data| + pos) && all == data + input && secret == ActiveSecret()
      requires nbStripesSoFar + n <= nbStripesPerBlock && pos + 64 * n <= |input|
      ensures 8 * nbStripesSoFar + 8 * n + 56 <= |secret| && 64 * consumed + 64 * n <= |all|
      ensures a == Accumulated(kernel, acc, all, 64 * consumed, secret, 8 * nbStripesSoFar, n)
    {
      hide Feed, State.SecretFields, Accumulated;
      SecretSizes();
      a := Accumulate(kernel, acc, input, pos, secret, 8 * nbStripesSoFar, n);
      SameBytes(data, input, pos, 64 * n);
      AccumulatedSameBytes(kernel, acc, input, pos, all, 64 * consumed, secret, 8 * nbStripesSoFar, n);
    }

    /** `n` stripes up to the end of the block, and its scramble. */
    method AccumulateBlock(input: seq<u8>, pos: nat, n: nat, secret: Secret, ghost all: seq<u8>)
      requires Ingesting(all, |data| + pos) && all == data + input && secret == ActiveSecret()
      requires n > 0 && nbStripesSoFar + n == nbStripesPerBlock && pos + 64 * n <= |input|
      modifies this`acc, this`nbStripesSoFar, this`consumed
      ensures Ingesting(all, |data| + pos + 64 * n) && nbStripesSoFar == 0
    {
      hide Feed, StripesPerBlock, State.SecretFields, Accumulated;
      SecretSizes();
      acc := AccumulateFrom(input, pos, n, secret, all);
      acc := kernel.scramble(acc, secret[secretLimit..]);
      FeedToBlockEnd(kernel, secret, all, consumed, n);
      nbStripesSoFar := 0;
      consumed := consumed + n;
    }

    /** The stripes of the last, incomplete block. */
    method AccumulateRest(input: seq<u8>, pos: nat, n: nat, secret: Secret, ghost all: seq<u8>)
      requires Ingesting(all, |data| + pos) && all == data + input && secret == ActiveSecret()
      requires nbStripesSoFar == 0 && n < nbStripesPerBlock && pos + 64 * n <= |input|
      modifies this`acc, this`nbStripesSoFar, this`consumed
      ensures Ingesting(all, |data| + pos + 64 * n)
      ensures consumed == old(consumed) + n
    {
      hide Feed, StripesPerBlock, State.SecretFields, Accumulated;
      SecretSizes();
      acc := AccumulateFrom(input, pos, n, secret, all);
      FeedInsideBlock(kernel, secret, all, consumed, n);
      nbStripesSoFar := n;
      consumed := consumed + n;
    }

    /** At most a block left: take it in by multiples of the buffer size. */
    method IngestBuffers(input: seq<u8>, start: nat, ghost all: seq<u8>) returns (pos: nat)
      requires Ingesting(all, |data| + start) && buffer.Length == 256
      requires all == data + input
      requires start <= |input| && |input| - start > 256
      modifies this`acc, this`nbStripesSoFar, this`consumed, buffer
      ensures pos < |input| <= pos + 256
      ensures Ingesting(all, |data| + pos) && TailKept(buffer[..], bufferedSize, consumed, all) && consumed > 0
    {
      hide State.Ingesting, TailKept;
      IngestingFacts(all, |data| + start);
      pos := start;
      var limit := |input| - BUFFER_SIZE;
      while true
        invariant start <= pos < limit && Ingesting(all, |data| + pos)
        decreases limit - pos
      {
        IngestBuffer(input, pos, all);
        pos := pos + BUFFER_SIZE;
        if pos >= limit { break; }
      }
      IngestingFacts(all, |data| + pos);
      KeepPredecessor(input, pos, all);
    }

    /** As many stripes as the buffer holds, straight from the input. */
    method IngestBuffer(input: seq<u8>, pos: nat, ghost all: seq<u8>)
      requires Ingesting(all, |data| + pos) && all == data + input && pos + 256 <= |input|
      modifies this`acc, this`nbStripesSoFar, this`consumed
      ensures Ingesting(all, |data| + pos + 256)
    {
      hide Feed, StripesPerBlock, State.SecretFields;
      SecretSizes();
      SameBytes(data, input, pos, 64 * 4);
      acc, nbStripesSoFar := ConsumeStripes(kernel, acc, nbStripesSoFar, input, pos, BUFFER_STRIPES, ActiveSecret(),
                                            all, consumed);
      consumed := consumed + 4;
    }

    // -------------------------------------------------------------- digest

    method DigestLong() returns (r: Acc)
      requires Ready() && |data| > 240
      ensures r == LongAcc(kernel, data, ActiveSecret())
    {
      hide Feed, StripesPerBlock, State.SecretFields, TailKept;
      SecretSizes();
      var secret := ActiveSecret();
      if bufferedSize >= 64 {
        var nbStripes := (bufferedSize - 1) / 64;
        var a, _ := ConsumeStripes(kernel, acc, nbStripesSoFar, buffer[..bufferedSize], 0, nbStripes, secret, data,
                                   consumed)
          by { BufferHolds(nbStripes); }
        LastStripes(consumed, bufferedSize);
        LastStripeBuffered();
        r := kernel.accumulate(a, buffer[bufferedSize - 64..bufferedSize],
                               secret[secretLimit - 7..secretLimit - 7 + 64]);
      } else {
        var catchup := 64 - bufferedSize;
        LastStripePieced();
        var lastStripe := buffer[256 - catchup..256] + buffer[..bufferedSize];
        LastStripes(consumed, bufferedSize);
        r := kernel.accumulate(acc, lastStripe, secret[secretLimit - 7..secretLimit - 7 + 64]);
      }
    }

    lemma LastStripeBuffered()
      requires Ready() && bufferedSize >= 64
      ensures |data| >= 64 && buffer[bufferedSize - 64..bufferedSize] == data[|data| - 64..]
    {
      hide Feed, State.SecretFields, TailKept, StripesPerBlock;
      SecretSizes();
      assert buffer[bufferedSize - 64..bufferedSize] == buffer[..bufferedSize][bufferedSize - 64..];
    }

    /** A short last stripe is completed from the buffer's tail. */
    lemma LastStripePieced()
      requires Ready() && |data| > 240 && bufferedSize < 64
      ensures bufferedSize > 0 && buffer[192 + bufferedSize..256] + buffer[..bufferedSize] == data[|data| - 64..]
    {
      hide Feed, State.SecretFields, StripesPerBlock;
      SecretSizes();
      assert forall j :: 0 <= j < bufferedSize ==> buffer[..bufferedSize][j] == data[64 * consumed..][j];
    }

    lemma BufferHolds(n: nat)
      requires Ready() && 64 * n <= bufferedSize
      ensures buffer[..bufferedSize][0..0 + 64 * n] == data[64 * consumed..64 * (consumed + n)]
    {
      assert data[64 * consumed..64 * (consumed + n)] == data[64 * consumed..][..64 * n];
    }

    lemma LastStripes(c: nat, b: nat)
      requires b > 0
      ensures (64 * c + b - 1) / 64 == c + (b - 1) / 64
    {
    }

    /** The fields name the right secrets and the right seed. */
    lemma SecretsInUse()
      requires SecretFields()
      ensures mode != Unset && ActiveSecret() == LongSecret(builtin, mode)
      ensures if useSeed then ShortSecret(builtin, mode) == builtin && ShortSeed(mode) == seed
              else ShortSecret(builtin, mode) == ActiveSecret() && ShortSeed(mode) == 0
    {
      hide DeriveSecret, StripesPerBlock;
    }

    method Digest() returns (h: u64)
      requires Ready() && |data| < TWO64
      ensures h == OneShot(kernel, builtin, mode, data)
    {
      hide ShortHash, LongHash, LongSecret, ShortSecret, ShortSeed, OneShot, MergeAccs, LongAcc, Avalanche3, Mul64;
      SecretsInUse();
      OneShotParts(kernel, builtin, mode, data);
      assert totalLen == |data|;
      if totalLen > MIDSIZE_MAX {
        h := DigestMerged();
      } else {
        h := DigestShort();
      }
    }

    method DigestMerged() returns (h: u64)
      requires Ready() && 240 < |data| < TWO64
      ensures h == LongHash(kernel, data, ActiveSecret())
    {
      hide LongHash, DeriveSecret, Feed, StripesPerBlock, MergeAccs, LongAcc, Avalanche3, Mul64;
      var secret := ActiveSecret();
      var a := DigestLong();
      h := MergeAccumulators(a, secret, Mul64(totalLen, PRIME64_1));
      LongHashParts(kernel, data, secret);
    }

    /** Short inputs are still whole in the buffer: hash them in one go. */
    method DigestShort() returns (h: u64)
      requires Ready() && |data| <= 240
      ensures h == ShortHash(data, ShortSecret(builtin, mode), ShortSeed(mode))
    {
      hide ShortHash, LongHash, DeriveSecret, Feed, StripesPerBlock, LongSecret, ShortSecret, ShortSeed;
      SecretsInUse();
      assert consumed == 0 && buffer[..totalLen] == data;
      if useSeed {
        h := Xxh3Bits64WithSeed(kernel, builtin, buffer[..totalLen], seed);
      } else {
        h := Xxh3Bits64WithSecret(kernel, buffer[..totalLen], ActiveSecret());
      }
    }
  }

  lemma LongHashParts(k: Kernel, input: seq<u8>, secret: Secret)
    requires |input| > 240
    ensures LongHash(k, input, secret)
            == Avalanche3(MergeAccs(LongAcc(k, input, secret), secret, Mul64(|input|, PRIME64_1), 4))
  {
  }
}
