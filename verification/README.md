# Verified models of the hashing library and the Deegen inline caches

This project models, in Dafny, the parts of the repository whose correctness rests on an argument
rather than on a single expression, and proves that argument.

* **Hashing.** XXH3 (64-bit), XXH32 and XXH64. A hash is *defined* by a fold over stripes
  (`Xxh3Hash`, `Xxh32.Hash`, `Xxh64.Hash`). The one-shot loops, the streaming states, the SIMD lane
  forms and the compile-time implementation are written the way the source writes them and proved
  to return exactly that value. Words are integers with explicit wrap-around.
* **Inline caches.** What the generated code does at run time, as state machines: the interpreter's
  one-entry cache (`InterpreterIc`), the JIT's chain of stubs with the inline slab (`JitIc`), the
  mixed-radix ordinals of specialized effects (`IcSpecialization`), the packed state and the capture
  struct (`IcCaptures`), opcode fusion (`OpcodeFusion`), slab sizing and NOP padding (`InlineSlab`,
  `NopFill`). The reference is `IcSite.TrivialStep`, which always runs the body.
* **What the definitions mean.** The definitions these results are stated with are tied to facts that do
  not mention them. Mixing steps have explicit inverses (`Bits`, `Xxh3Inverse`, `Xxh32Inverse`,
  `Xxh64Inverse`); a run of a site is told by a log of events (`IcLog`); escaping is what no run of the
  function does (`ReadLocations`); a printed expression is read back as C++ (`PrintedMeaning`).
* **Three smaller cores.** The read-location search over a cyclic def-use graph (`ReadLocations`),
  the operand-expression arena and its printed form (`OperandExpr`), and Base64 with line wrapping
  (`Base64`).

`Arith` and `Words` hold the integer and byte facts everything else stands on. To verify:
`dafny verify dfyconfig.toml`.

## What the main results say

* Any sequence of resets, updates and digests on one XXH3 state, from its creation on, returns the
  one-shot hashes of the bytes given since the last reset, in all four reset modes
  (`HashFunctions.RunStream`); hence a string hashed in pieces hashes like the whole
  (`HashFunctions.HashMultiPieceString`, `HashFunctions.HashString`).
* The compile-time XXH3 and the runtime XXH3 return the same word for every input, secret and seed
  (`Xxh3Constexpr.BothImplementations`).
* Any run of executions of an inline-cache site returns what running the body every time returns,
  for the interpreter cache in all its configurations (`InterpreterIc.RunCache`) and for the JIT
  chain (`JitIc.RunJit`), provided the author keeps the promise of the API (`IcSite.Respects`).

* Short strings do not collide under XXH3 (`Xxh3Inverse.ShortStringsDiffer`), and changing any one byte of
  any input changes its XXH32 (`Xxh32Inverse.OneByteChangesHash`).

## Where a property fails, and exactly when it holds

* *Opcode fusion.* The update subtracts the sign-extended old kind and adds the zero-extended new
  one. The opcode names the cached variant at every moment of a run if and only if every kind that
  gets overwritten is below 128 (`OpcodeFusion.OpcodeNamesKindIff`); exactly under that condition on
  the kinds it installs does a run of a fused site end with the right opcode, and with all results
  right (`InterpreterIc.RunCache`). Sites of at
  most 128 kinds always meet it (`InterpreterIc.FewKindsAreSmall`); `FusionLimit.WideSiteGoesWrong`
  is a valid site of 150 kinds and a run of two executions that does not. The comment at
  deegen/deegen_ast_inline_cache.cpp:2294-2295 says the caller resets the opcode first; the code
  below it updates relative to the old kind, and the model follows the code.
* *Base64 encoding.* The position is a 32-bit counter compared with a 64-bit length: the loop ends
  if and only if the input is shorter than 2^32 bytes (`Base64.EncodeEndsIff`).
* *Printed expressions.* Infinity prints like the number -1; apart from that pair two expressions
  print alike only if they are equal (`OperandExpr.PrintedDeterminesTree`). This needs operand names
  that do not contain the text printed behind a name, `.AsRawValue())`, directly followed by a
  closing parenthesis, a plus or a minus: `OperandExpr.OddNamesPrintAlike` makes two different
  expressions with one text out of any three names and any struct name.
* *Patchable jumps.* A patched 32-bit jump goes where it was sent if and only if the distance fits
  32 signed bits (`JitIc.PatchedJumpIff`).

## Model

| member | source | states |
|---|---|---|
| Multiply.PortableNeverOverflows | common_utils/thirdparty_xxhash_impl.h:3438-3447 | no cross product and no sum of the portable multiplication leaves 64 bits |
| Multiply.PortableIsExact | common_utils/thirdparty_constexpr_xxh.h:133-143 | upper * 2^64 + lower is the product of the operands, for all operands |
| Multiply.PortableIsWide | common_utils/thirdparty_xxhash_impl.h:3332-3454 | the portable form returns the two halves of the 128-bit product |
| Xxh3Kernel.AccumulateScalar | common_utils/thirdparty_xxhash_impl.h:4337-4377 | the in-place scalar loop, with its `lane ^ 1` add, gives every lane its closed form |
| Xxh3Kernel.ScrambleScalar | common_utils/thirdparty_xxhash_impl.h:4385-4415 | the in-place scalar scramble gives every lane its closed form |
| Xxh3Kernel.AccumulateRegLanes | common_utils/thirdparty_xxhash_impl.h:4034-4067 | shuffles and 32x32 products of one SSE2 step give both lanes the scalar value |
| Xxh3Kernel.SplitProduct | common_utils/thirdparty_xxhash_impl.h:4069-4096 | low product plus shifted high product is the 64-bit product by a 32-bit prime |
| Xxh3Kernel.ScrambleRegLanes | common_utils/thirdparty_xxhash_impl.h:4069-4096 | one SSE2 scramble step gives both lanes the scalar value |
| Xxh3Kernel.AccumulateSse2 | common_utils/thirdparty_xxhash_impl.h:4034-4067 | the SSE2 loop equals the scalar loop |
| Xxh3Kernel.ScrambleSse2 | common_utils/thirdparty_xxhash_impl.h:4069-4096 | the SSE2 scramble equals the scalar scramble |
| Xxh3Kernel.AccumulateAvx2 | common_utils/thirdparty_xxhash_impl.h:3929-3961 | the AVX2 loop, two register halves at a time, equals the scalar loop |
| Xxh3Kernel.ScrambleAvx2 | common_utils/thirdparty_xxhash_impl.h:3963-3990 | the AVX2 scramble equals the scalar scramble |
| Xxh3Hash.DeriveFromZero | common_utils/thirdparty_xxhash_impl.h:4417-4483 | the secret derived from seed 0 is the built-in secret |
| Xxh3Hash.GeneratedSecretHashesLikeSeed | common_utils/thirdparty_xxhash_impl.h:5764-5771 | withSecretandSeed on a secret generated from the seed equals withSeed, for every seed, 0 included |
| Bits.XorAndSum | common_utils/thirdparty_xxhash_impl.h:3474-3478 | `^` is addition without carries: the exclusive or plus twice the common bits is the sum |
| Bits.XorCancel | common_utils/thirdparty_xxhash_impl.h:3474-3478 | `^` with the same word twice changes nothing |
| Bits.SpreadTwice | common_utils/thirdparty_xxhash_impl.h:3500-3504 | doing a sum of two rotations twice doubles the rotations |
| Xxh3Inverse.AvalancheUndone | common_utils/thirdparty_xxhash_impl.h:2443-2451 | an inverse with its own shifts and inverse primes undoes the avalanche |
| Xxh3Inverse.Avalanche3Undone | common_utils/thirdparty_xxhash_impl.h:3484-3490 | an inverse with its own shift and multiplier undoes the XXH3 avalanche |
| Xxh3Inverse.RrmxmxUndone | common_utils/thirdparty_xxhash_impl.h:3497-3505 | the mixing of 4 to 8 bytes is undone by six sums of rotations, inverse multipliers and shifts |
| Xxh3Inverse.ScrambleUndone | common_utils/thirdparty_xxhash_impl.h:4385-4406 | scrambling an accumulator lane loses nothing |
| Xxh3Inverse.EmptyHash | common_utils/thirdparty_xxhash_impl.h:3596-3605 | the hash of nothing gives two secret words and the seed back |
| Xxh3Inverse.OneToThreeRecovered | common_utils/thirdparty_xxhash_impl.h:3541-3561 | a string of one to three bytes can be recovered from its hash, length included |
| Xxh3Inverse.FourToEightRecovered | common_utils/thirdparty_xxhash_impl.h:3563-3577 | a string of four to eight bytes can be recovered from its hash and length |
| Xxh3Inverse.FoldSum | common_utils/thirdparty_xxhash_impl.h:3466-3471 | the fold of a product is its two words added without carries |
| Xxh3Inverse.NineToSixteen | common_utils/thirdparty_xxhash_impl.h:3579-3594 | what enters the last avalanche for 9 to 16 bytes |
| Xxh3Inverse.SeedIsDerivedSecret | common_utils/thirdparty_xxhash_impl.h:3666-3702 | for 17 to 128 bytes a seed does what the secret derived from it would do |
| Xxh3Inverse.OneToThreeDiffer | common_utils/thirdparty_xxhash_impl.h:3541-3561 | no two strings of one to three bytes have the same hash, for any secret and seed |
| Xxh3Inverse.FourToEightDiffer | common_utils/thirdparty_xxhash_impl.h:3563-3577 | no two strings of equal length from 4 to 8 have the same hash, for any secret and seed |
| Xxh3Inverse.ShortStringsDiffer | common_utils/thirdparty_xxhash_impl.h:3541-3605 | both, in every mode of the hash |
| Xxh3Stripes.Accumulate | common_utils/thirdparty_xxhash_impl.h:4551-4566 | the loop is the run of stripes with the secret window moving 8 bytes per stripe |
| Xxh3Stripes.FeedInsideBlock | common_utils/thirdparty_xxhash_impl.h:4967-4970 | stripes that stay inside a block only accumulate |
| Xxh3Stripes.FeedToBlockEnd | common_utils/thirdparty_xxhash_impl.h:4959-4966 | stripes up to the block end accumulate, and scramble once |
| Xxh3Stripes.FeedOfPrefix | common_utils/thirdparty_xxhash_impl.h:4981-5095 | what was folded does not depend on input that arrives later |
| Xxh3Stripes.ConsumeStripes | common_utils/thirdparty_xxhash_impl.h:4949-4971 | takes the fold of `c` stripes to the fold of `c + nbStripes`, wherever in the block it starts |
| Xxh3Runtime.PairOrderIrrelevant | common_utils/thirdparty_xxhash_impl.h:3666-3702 | adding the 17-128 byte pairs from the inside out gives the same sum as from the outside in |
| Xxh3Runtime.HashLen129to240 | common_utils/thirdparty_xxhash_impl.h:3704-3755 | the two loops of rounds return the specified mid-size hash |
| Xxh3Runtime.HashLongLoop | common_utils/thirdparty_xxhash_impl.h:4568-4599 | whole blocks, partial block and last stripe give the fold over all stripes with a scramble at each block end |
| Xxh3Runtime.MergeAccumulators | common_utils/thirdparty_xxhash_impl.h:4601-4634 | the merging loop returns the specified sum of folded pairs |
| Xxh3Runtime.HashLong | common_utils/thirdparty_xxhash_impl.h:4639-4655 | returns the specified long hash |
| Xxh3Runtime.HashShort | common_utils/thirdparty_xxhash_impl.h:4732-4754 | returns the specified hash for every length up to 240 |
| Xxh3Runtime.Xxh3Bits64 | common_utils/thirdparty_xxhash_impl.h:4757-4760 | the default one-shot hash has its specified value |
| Xxh3Runtime.Xxh3Bits64WithSecret | common_utils/thirdparty_xxhash_impl.h:4763-4767 | the one-shot hash with a secret has its specified value |
| Xxh3Runtime.Xxh3Bits64WithSeed | common_utils/thirdparty_xxhash_impl.h:4695-4774 | the seeded one-shot hash has its specified value; the shortcut for seed 0 changes nothing |
| Xxh3Runtime.Xxh3Bits64WithSecretAndSeed | common_utils/thirdparty_xxhash_impl.h:4776-4782 | short inputs use the seed, long inputs the secret |
| Xxh3Runtime.InitCustomSecret | common_utils/thirdparty_xxhash_impl.h:4417-4483 | the buffer becomes the secret derived from the seed, all 192 bytes |
| Xxh3Stream.OneShotParts | common_utils/thirdparty_xxhash_impl.h:4732-4782 | in every reset mode the one-shot hash depends only on the short secret and seed, or on the long secret |
| Xxh3Stream.State.Create | common_utils/thirdparty_xxhash_impl.h:4853-4859 | a created state satisfies the caching invariant of the custom secret |
| Xxh3Stream.State.ResetInternal | common_utils/thirdparty_xxhash_impl.h:4875-4901 | all counters and accumulators are reset, the seed and secret recorded |
| Xxh3Stream.State.FreshIsReady | common_utils/thirdparty_xxhash_impl.h:4875-4901 | a reset state satisfies the whole streaming invariant on no input |
| Xxh3Stream.State.Reset | common_utils/thirdparty_xxhash_impl.h:4903-4909 | ready on no input, in default mode |
| Xxh3Stream.State.ResetWithSecret | common_utils/thirdparty_xxhash_impl.h:4912-4920 | accepted exactly for a secret of at least 136 bytes; then ready with it |
| Xxh3Stream.State.ResetWithSeed | common_utils/thirdparty_xxhash_impl.h:4923-4932 | ready with the seed, also when the derivation of the custom secret is skipped |
| Xxh3Stream.State.ResetWithSecretAndSeed | common_utils/thirdparty_xxhash_impl.h:4935-4944 | accepted exactly for a secret of at least 136 bytes; refused calls change nothing |
| Xxh3Stream.State.FillBuffer | common_utils/thirdparty_xxhash_impl.h:5018-5032 | completing the buffer takes in exactly its four stripes |
| Xxh3Stream.State.IngestBlocks | common_utils/thirdparty_xxhash_impl.h:5035-5062 | the large-input path takes in whole blocks, keeps the fold, and leaves the last stripe in the buffer tail |
| Xxh3Stream.State.IngestBuffers | common_utils/thirdparty_xxhash_impl.h:5063-5079 | the medium-input path does the same by buffer sizes |
| Xxh3Stream.State.Update | common_utils/thirdparty_xxhash_impl.h:4981-5095 | keeps the invariant: length = 64 * stripes + buffered, accumulators = fold of exactly those stripes, buffer tail = the bytes before; the input is appended |
| Xxh3Stream.State.DigestLong | common_utils/thirdparty_xxhash_impl.h:5105-5137 | the accumulators of the one-shot long hash, also when the last stripe has to be pieced together from the buffer tail |
| Xxh3Stream.State.SecretsInUse | common_utils/thirdparty_xxhash_impl.h:5140-5155 | in every reachable state the fields select the secret and seed of the reset mode |
| Xxh3Stream.State.Digest | common_utils/thirdparty_xxhash_impl.h:5140-5155 | returns the one-shot hash, in the state's mode, of everything given since the reset |
| HashFunctions.HashString | common_utils/hash_functions.h:31-34 | the default one-shot hash of the string; no other string of equal length up to 8, or of one to three bytes, has the same hash |
| HashFunctions.HashMultiPieceString | common_utils/hash_functions.h:48-79 | hash and length of the concatenation, whatever the pieces and whatever was in the state's memory |
| HashFunctions.RunStream | common_utils/thirdparty_xxhash_impl.h:4876-5155 | every digest in every run of calls on one state is the one-shot hash of the bytes since the last reset |
| HashFunctions.OrdinaryRun | common_utils/thirdparty_xxhash_impl.h:4903-5155 | one accepted reset, any pieces and a digest are an allowed run in each of the four modes, and expect the one-shot hash of that mode |
| HashFunctions.ShortNamesDiffer | common_utils/hash_functions.h:31-34 | different strings of one to three bytes, or of equal length up to 8, have different default hashes |
| ConstexprWords.CRead32 | common_utils/thirdparty_constexpr_xxh.h:75-79 | shifts and ors read the same word as the runtime read |
| ConstexprWords.CRead64 | common_utils/thirdparty_constexpr_xxh.h:92-95 | the two halves give the same word as the runtime read |
| ConstexprWords.CSwap32 | common_utils/thirdparty_constexpr_xxh.h:70-73 | masks and shifts reverse the four bytes |
| ConstexprWords.CSwap64 | common_utils/thirdparty_constexpr_xxh.h:81-90 | masks and shifts reverse the eight bytes |
| ConstexprWords.CMulFold64 | common_utils/thirdparty_constexpr_xxh.h:133-154 | folds the same 128-bit product as the runtime |
| Xxh3Constexpr.CAvalanche64 | common_utils/thirdparty_constexpr_xxh.h:156-160 | with its own primes, the runtime's avalanche |
| Xxh3Constexpr.CAvalanche3 | common_utils/thirdparty_constexpr_xxh.h:162-165 | the runtime's XXH3 avalanche |
| Xxh3Constexpr.CRrmxmx | common_utils/thirdparty_constexpr_xxh.h:167-173 | the runtime's mixing of 4 to 8 bytes |
| Xxh3Constexpr.CLen0to16Same | common_utils/thirdparty_constexpr_xxh.h:236-260 | the cases up to 16 bytes give the runtime value |
| Xxh3Constexpr.CLen17to128 | common_utils/thirdparty_constexpr_xxh.h:261-269 | the loop from both ends returns the specified hash |
| Xxh3Constexpr.CLen129to240 | common_utils/thirdparty_constexpr_xxh.h:270-278 | the loops over byte offsets return the specified hash |
| Xxh3Constexpr.CHashLong | common_utils/thirdparty_constexpr_xxh.h:186-229 | the in-place block loops and the final merge return the specified long hash |
| Xxh3Constexpr.CDerive | common_utils/thirdparty_constexpr_xxh.h:326-330 | the derived secret is the runtime's derived secret |
| Xxh3Constexpr.Xxh3Const | common_utils/thirdparty_constexpr_xxh.h:296-304 | the default hash has the specified value |
| Xxh3Constexpr.Xxh3ConstWithSecret | common_utils/thirdparty_constexpr_xxh.h:306-316 | the hash with a secret has the specified value |
| Xxh3Constexpr.Xxh3ConstWithSeed | common_utils/thirdparty_constexpr_xxh.h:318-333 | the seeded hash has the specified value, seed 0 included |
| Xxh3Constexpr.BothImplementations | common_utils/thirdparty_constexpr_xxh.h:186-333 | runtime and compile-time hash are equal for every input, secret and seed |
| Xxh32.Finalize | common_utils/thirdparty_xxhash_impl.h:2069-2099 | the tail loops return the specified finish |
| Xxh32.OneShot | common_utils/thirdparty_xxhash_impl.h:2157-2188 | the one-shot loop returns XXH32 of the input |
| Xxh32.LargeEnough | common_utils/thirdparty_xxhash_impl.h:2256-2257 | the flag is set exactly when the true total reached 16, although the length wraps at 2^32 |
| Xxh32.State.Update | common_utils/thirdparty_xxhash_impl.h:2245-2296 | lanes = fold of the whole stripes, buffer = the rest, flag = true total at least 16, for inputs of any length |
| Xxh32.State.Digest | common_utils/thirdparty_xxhash_impl.h:2300-2316 | the one-shot XXH32 of everything given |
| Xxh32.HashPieces | common_utils/thirdparty_xxhash_impl.h:2232-2316 | every split of an input hashes like the input |
| Xxh32Inverse.RoundUndone | common_utils/thirdparty_xxhash_impl.h:1987-1991 | lane and input word of a round can be recovered, with inverse primes and the opposite rotation |
| Xxh32Inverse.MergeUndone | common_utils/thirdparty_xxhash_impl.h:2158-2188 | each lane follows from the merged word and the other lanes |
| Xxh32Inverse.SeedLanes | common_utils/thirdparty_xxhash_impl.h:2232-2241 | the four lanes a seed starts with |
| Xxh32Inverse.AvalancheUndone | common_utils/thirdparty_xxhash_impl.h:2041-2049 | an inverse undoes the avalanche |
| Xxh32Inverse.EmptyHash | common_utils/thirdparty_xxhash_impl.h:2158-2188 | the hash of nothing gives the seed back |
| Xxh32Inverse.OneByteChangesHash | common_utils/thirdparty_xxhash_impl.h:2158-2188 | changing one byte of an input, of any length and anywhere, changes the hash |
| Xxh64.Finalize | common_utils/thirdparty_xxhash_impl.h:2471-2493 | the tail loops return the specified finish |
| Xxh64.OneShot | common_utils/thirdparty_xxhash_impl.h:2515-2549 | the one-shot loop returns XXH64 of the input |
| Xxh64.State.Update | common_utils/thirdparty_xxhash_impl.h:2605-2653 | lanes = fold of the whole stripes, buffer = the rest |
| Xxh64.State.Digest | common_utils/thirdparty_xxhash_impl.h:2657-2674 | the one-shot XXH64 of everything given |
| Xxh64.HashPieces | common_utils/thirdparty_xxhash_impl.h:2593-2674 | every split of an input hashes like the input |
| Xxh64Inverse.RoundUndone | common_utils/thirdparty_xxhash_impl.h:2426-2432 | lane and input word of a round can be recovered |
| Xxh64Inverse.MergeUndone | common_utils/thirdparty_xxhash_impl.h:2434-2440 | undoing the four merge rounds leaves the sum of the lanes rotated by 1, 7, 12 and 18 |
| Xxh64Inverse.SeedLanes | common_utils/thirdparty_xxhash_impl.h:2593-2602 | the four lanes a seed starts with |
| Xxh64Inverse.Process8Undone | common_utils/thirdparty_xxhash_impl.h:2471-2493 | state and word of an eight-byte step can be recovered |
| Xxh64Inverse.EmptyHash | common_utils/thirdparty_xxhash_impl.h:2516-2549 | the hash of nothing gives the seed back |
| Xxh64Inverse.OneTailByteChangesHash | common_utils/thirdparty_xxhash_impl.h:2516-2549 | changing one byte behind the last whole stripe changes the hash |
| IcSpecialization.NumberBound | deegen/deegen_ast_inline_cache.cpp:476-481 | every ordinal is below the number of specializations |
| IcSpecialization.DigitsOfNumber | deegen/deegen_ast_inline_cache.cpp:599-614 | taking an ordinal apart gives the digits it was made of |
| IcSpecialization.NumberOfDigits | deegen/deegen_ast_inline_cache.cpp:599-614 | every ordinal below the number of specializations is made of its own digits: with DigitsOfNumber, a bijection |
| IcSpecialization.ComputeOrdinal | deegen/deegen_ast_inline_cache.cpp:1795-1890 | the emitted sum of digit times weight is the mixed-radix ordinal, and no 8-bit step overflows |
| IcSpecialization.DecodeOrdinal | deegen/deegen_ast_inline_cache.cpp:588-614 | the generator's loop gives the digits' constants, and never the fallback for a full-coverage capture |
| IcSpecialization.DecodeComputedOrdinal | deegen/deegen_ast_inline_cache.cpp:588-614 | the ordinal computed at run time decodes to the constant each capture equals, or to the fallback |
| IcSpecialization.BlocksTile | deegen/deegen_ast_inline_cache.cpp:1709-1716 | every kind below the total lies in the block of exactly one effect |
| IcCaptures.EncodeState | deegen/deegen_ast_inline_cache.cpp:2157-2218 | the packed state holds every stored capture at its offset |
| IcCaptures.DecodeState | deegen/deegen_ast_inline_cache.cpp:2219-2242 | decoding what was encoded gives the captures back |
| IcCaptures.RebuildCapture | deegen/deegen_ast_inline_cache.cpp:626-692 | decoded state, fresh main-function values and specialized constants make up the whole capture struct the body would have built |
| IcCaptures.RebuildFromImmediates | deegen/deegen_ast_inline_cache.cpp:2585-2638 | the same for the values burnt into a JIT stub |
| IcCaptures.ImmediatesAreWords | deegen/deegen_ast_inline_cache.cpp:2894-2948 | captures of at most 8 bytes are 64-bit words when passed to the code generator |
| IcSite.SameCapture | deegen/deegen_ast_inline_cache.cpp:1094-1101 | equal body captures and equal fresh values make equal capture structs |
| IcSite.KeyOnlyRespects | deegen/api_inline_cache.h:37-92 | a body that looks only at the key keeps the promise of the API on every run, whatever its effects do |
| IcSite.MissingKey | drt/jit_inline_cache_utils.h:130-132 | a cacheable key has no entry only if the full number of other keys came before it |
| OpcodeFusion.OpcodeDrift | deegen/deegen_ast_inline_cache.cpp:2285-2321 | after any run of updates the opcode is 256 too far for every overwritten kind of at least 128 |
| OpcodeFusion.OpcodeNamesKindIff | deegen/deegen_ast_inline_cache.cpp:2285-2321 | the opcode names the cached kind throughout a run if and only if every overwritten kind is below 128 |
| OpcodeFusion.OpcodeGoesWrong | deegen/deegen_ast_inline_cache.cpp:2285-2321 | installing kinds 128 and then 0 ends 256 opcodes too far, from every initial opcode |
| InterpreterIc.Cache.Lookup | deegen/deegen_ast_inline_cache.cpp:2042-2127 | the hit check succeeds exactly when an entry for the key exists, in every configuration, and finds its kind |
| InterpreterIc.Cache.RunCached | deegen/deegen_ast_inline_cache.cpp:2113-2127 | the wrapper chosen by the kind does what the body would |
| InterpreterIc.Cache.CreateEntry | deegen/deegen_ast_inline_cache.cpp:2244-2321 | the new entry replaces the old one completely: key, kind, packed state, and the opcode by the update relative to the old kind |
| InterpreterIc.Cache.RunBody | deegen/deegen_ast_inline_cache.cpp:2244-2349 | the miss path does what the body does, installs an entry exactly if the outcome is cacheable, and keeps the opcode right exactly if no kind of 128 or more was overwritten |
| InterpreterIc.Cache.Execute | deegen/deegen_ast_inline_cache.cpp:1941-2349 | one execution returns what trivial lowering returns, installs the effect and values for its key exactly on a cacheable miss, and keeps the cache right for the rest of the run; a fused opcode stays right exactly if no kind of 128 or more was overwritten |
| InterpreterIc.FusedUpdateIff | deegen/deegen_ast_inline_cache.cpp:2285-2321 | an update takes the opcode from variant to variant if and only if the old kind is below 128 |
| InterpreterIc.FindEffect | deegen/deegen_ast_inline_cache.cpp:1709-1716 | finds the effect whose block holds a kind |
| InterpreterIc.RunCache | deegen/deegen_ast_inline_cache.cpp:1941-2437 | every run of the interpreter cache returns the results of trivial lowering, with or without an impossible key, elided kind, fusion and SetUncacheable, and ends with the kind installed last; a fused run ends with the right opcode if and only if no overwritten kind reaches 128, and its results are right up to the execution that breaks the opcode |
| InterpreterIc.FewKindsAreSmall | deegen/deegen_ast_inline_cache.cpp:2285-2321 | a site with at most 128 kinds installs only kinds below 128, on every run |
| FusionLimit.WideSiteGoesWrong | deegen/deegen_ast_inline_cache.cpp:476-488 | a site of three effects with 50 specializations each is valid, its run of two keys respects the contract and installs 128 and 0, and the fused opcode is then wrong |
| JitIc.PatchedJumpIff | deegen/misc_llvm_helper.h:2070-2103 | reading back a patched jump gives the target if and only if the distance fits 32 signed bits |
| JitIc.JitSite.Walk | deegen/deegen_ast_inline_cache.cpp:3550-3606 | following the miss jumps visits every entry exactly once and ends at the slow path; the entry count is the number of entries visited |
| JitIc.JitSite.Dispatch | deegen/deegen_ast_inline_cache.cpp:2726-2846 | the chain of compares finds a stub exactly when the key is in the chain |
| JitIc.JitSite.TryClaimSlab | deegen/deegen_ast_inline_cache.cpp:4282-4320 | the slab is claimed once, by a kind that fits, and counted |
| JitIc.JitSite.FillSlab | deegen/deegen_ast_inline_cache.cpp:3550-3606 | the slab inherits the target of the jump it overwrites |
| JitIc.JitSite.InsertStub | deegen/deegen_ast_inline_cache.cpp:3717-3723 | a stub goes in front of the outlined ones, behind the slab, and the chain stays linked |
| JitIc.JitSite.CreateEntry | deegen/deegen_ast_inline_cache.cpp:2858-3099 | adds exactly one entry with the new key, keeps all others, keys distinct and the count at most 5 |
| JitIc.JitSite.Execute | deegen/deegen_ast_inline_cache.cpp:2520-3099 | one execution returns what trivial lowering returns, adds its key exactly on a cacheable miss with room, and keeps the chain right for the rest of the run |
| JitIc.RunJit | deegen/deegen_ast_inline_cache.cpp:2520-3099 | every run of a JIT site returns the results of trivial lowering; following the jumps at the end meets exactly one entry for each of the first five different keys that could be cached |
| IcLog.TrivialRunTellsStory | deegen/deegen_ast_inline_cache.cpp:2401-2437 | in a world that is a log, every execution leaves the body's event and then the effect's with its capture struct, in order |
| IcLog.InterpreterTellsStory | deegen/deegen_ast_inline_cache.cpp:1941-2437 | the interpreter's cache leaves the same events, cached or not |
| IcLog.JitTellsStory | deegen/deegen_ast_inline_cache.cpp:2520-3099 | the JIT's chain leaves the same events, cached or not |
| NopFill.NopOfLonger | common_utils/x64_multi_byte_nop_instruction.h:35-39 | decoding a NOP does not look past it |
| NopFill.TableEntry | common_utils/x64_multi_byte_nop_instruction.h:8-39 | entry n decodes as a single NOP of exactly n bytes |
| NopFill.FillAddressRange | common_utils/x64_multi_byte_nop_instruction.h:43-53 | the range becomes whole NOPs ending exactly at its end, one NOP up to 15 bytes; nothing else changes |
| InlineSlab.CoverFacts | deegen/deegen_ast_inline_cache.cpp:4098-4106 | the n-th size in ascending order is the smallest limit under which n stubs fit |
| InlineSlab.ChooseSize | deegen/deegen_ast_inline_cache.cpp:4084-4131 | a size is chosen exactly when enough stubs fit 64 bytes; it is the largest stub within the tolerance of the smallest cover |
| InlineSlab.Pad | deegen/deegen_ast_inline_cache.cpp:4160-4184 | the padded code has the slab size; padding is whole NOPs, behind a short jump if it would be run and is 16 bytes or more; without a tail jump at most one padding instruction runs and it ends exactly at the slab end |
| InlineSlab.BuildSlab | deegen/deegen_ast_inline_cache.cpp:4074-4184 | size within 5..64 and equal to the largest kept stub; exactly the fitting stubs are kept, at least the required number, each padded to the slab size |
| ReadLocations.VisitUses | deegen/deegen_analyze_read_locations.cpp:37-91 | one value's uses are all recorded, or the value escapes |
| ReadLocations.FindDerived | deegen/deegen_analyze_read_locations.cpp:12-93 | the worklist ends on every graph, cycles included, with exactly the derived values and those read through, or finds that one escapes |
| ReadLocations.ConfinedIsClean | deegen/deegen_analyze_read_locations.cpp:37-91 | nothing derived escapes if and only if no run of the function writes a dependent value to memory or passes one to a call |
| ReadLocations.ReadIsReadThrough | deegen/deegen_analyze_read_locations.cpp:64-83 | the addresses that some run reads are exactly the derived ones that are read through |
| ReadLocations.AnalyzeReadLocations | deegen/deegen_analyze_read_locations.cpp:6-126 | succeeds exactly when no run of the function stores or passes on a value depending on the pointer, the mapper succeeded and every dependent address that some run reads is expressible; lists exactly the expressions of those addresses, without repetition |
| OperandExpr.RelocatedTree | deegen/api_define_bytecode.h:377-394 | a relocated copy of an arena stands for the same expression |
| OperandExpr.JoinedTree | deegen/api_define_bytecode.h:396-408 | a root over two relocated arenas is well formed and stands for the binary expression |
| OperandExpr.Expr.Put | deegen/api_define_bytecode.h:377-394 | copies and relocates every node, touches no other, and its range checks hold |
| OperandExpr.ConstructBinaryExpr | deegen/api_define_bytecode.h:396-408 | succeeds exactly for two nonempty operands that fit ten nodes; stands for the binary expression |
| OperandExpr.ConstructNumber | deegen/api_define_bytecode.h:410-417 | stands for the number |
| OperandExpr.ConstructOperandRef | deegen/api_define_bytecode.h:419-432 | succeeds exactly for names shorter than 32; stands for the operand |
| OperandExpr.ConstructInfinity | deegen/api_define_bytecode.h:434-440 | stands for infinity |
| OperandExpr.Build | deegen/api_define_bytecode.h:396-440 | any expression can be built exactly when it has at most ten nodes and short names |
| OperandExpr.EvalArena | deegen/api_define_bytecode.h:300-394 | evaluating node indices gives the value of the expression |
| OperandExpr.PrintArena | deegen/api_define_bytecode.h:327-359 | the recursion over node indices prints the expression, and aborts exactly for infinity inside a computation |
| OperandExpr.Expr.PrintCppExpression | deegen/api_define_bytecode.h:442-446 | prints the expression the arena stands for |
| OperandExpr.Expr.IsInfinity | deegen/api_define_bytecode.h:448-453 | true exactly of infinity, and its assertion holds |
| OperandExpr.TextUnique | deegen/api_define_bytecode.h:327-359 | equal texts come from equal expressions, whatever legal text follows them |
| OperandExpr.PrintedDeterminesTree | deegen/api_define_bytecode.h:327-359 | two expressions print alike if and only if they are equal or are infinity and -1, for names that cannot be taken to end early |
| OperandExpr.OddNamesPrintAlike | deegen/api_define_bytecode.h:327-359 | for any names x, y, z and any struct name, two different expressions print alike, with the lengths of the names involved |
| PrintedMeaning.EvaluateText | deegen/api_define_bytecode.h:327-359 | a reader of C++ text that knows nothing of the printer gets the value of the expression and stops behind it |
| PrintedMeaning.PrintedMeansTree | deegen/api_define_bytecode.h:327-359 | the printed text, read as C++, has the value of the expression |
| Base64.PosOfSymbol | deegen/base64_util.cpp:57-73 | looking up a character of either alphabet gives its value |
| Base64.SymbolIsTable | deegen/base64_util.cpp:46-55 | both alphabets, against the literal tables |
| Base64.AcceptedCharacters | deegen/base64_util.cpp:57-73 | exactly the characters of the two alphabets are accepted |
| Base64.EncodedPadding | deegen/base64_util.cpp:113-162 | the length of an encoding, and two, one or no padding characters at its end and nowhere else |
| Base64.TestVectors | deegen/base64_util.cpp:113-162 | the test vectors of section 10 of RFC 4648 |
| Base64.EncodeEndsIff | deegen/base64_util.cpp:133-158 | the 32-bit position of the encoding loop reaches the length if and only if the input is shorter than 2^32 |
| Base64.PosClosed | deegen/base64_util.cpp:133-158 | after n passes the position is 3n modulo 2^32 |
| Base64.EncodeGroup | deegen/base64_util.cpp:135-158 | masks and shifts give the four characters of the 24-bit group |
| Base64.Encode | deegen/base64_util.cpp:113-162 | the encoding of section 4 or 5 of RFC 4648, with '.' as padding in the second alphabet |
| Base64.DecodeGroup | deegen/base64_util.cpp:195-212 | masks and shifts give the octets of the 24-bit group, or an error; no read goes past the terminator |
| Base64.Decode | deegen/base64_util.cpp:164-215 | the decoding, with line breaks removed first if asked |
| Base64.RoundTrip | deegen/base64_util.cpp:113-215 | decoding inverts encoding for every byte string in both alphabets |
| Base64.InsertLinebreaks | deegen/base64_util.cpp:75-91 | ends although the string grows, and wraps the text |
| Base64.Unwrapped | deegen/base64_util.cpp:75-91 | removing the line breaks undoes the wrapping |
| Base64.LineLengths | deegen/base64_util.cpp:75-91 | every line but the last has exactly the given length |
| Base64.EncodeWithLineBreaks | deegen/base64_util.cpp:93-106 | the wrapped form (64 or 76 columns) decodes to the bytes, with lines of exactly that length |

## Left out

- The built-in XXH3 secret is a parameter of the model; the theorems hold for every 192-byte table, and the two tables of the source are the same one.
- Xxh3Stream.State.Digest: stated for totals below 2^64 bytes, which is what the 64-bit length can count; XXH32 has no such bound.
- Xxh64.State.Digest: stated for totals below 2^64 bytes, for the same reason.
- HashFunctions.HashMultiPieceString: stated for totals below 2^64 bytes, for the same reason.
- Pieces within 256 bytes of 2^64: the source adds the piece's length to the buffered size in `size_t`, which would wrap there; no memory holds such a piece, and the model adds without wrapping.
- Xxh64Inverse.OneTailByteChangesHash: a byte inside a whole stripe is not covered; each lane enters the merge of XXH64 twice, which is not one-to-one in a lane.
- Collisions of XXH3 beyond short strings: from 9 bytes on the hash multiplies words of the input with each other, which is not one-to-one.
- Error returns for a null state or null input to XXH32 and XXH64 (a null input updates nothing, like an empty one), and the debug-only assertions on a refused secret.
- Xxh3Stream.State.ResetWithSeed: needs a state that was created or reset before, as XXH3_INITSTATE provides; on raw memory the skipped derivation would read an undefined secret.
- AVX512, NEON and VSX kernels, prefetching, alignment and the unrolled switch of XXH32_finalize: the same lane argument or no effect on values.
- XXH3 128-bit variants and XXH3_generateSecret: they add mixing steps without a further law.
- LLVM IR construction, linking and assembly transformation: the model starts from what the emitted code does.
- The IC body and the effect lambdas are arbitrary functions of a world state and are taken as atomic; re-entrant executions of the same site from inside its own body are not modelled.
- IcSite.Respects: is the promise an author makes, not something the repository checks; without it caching is unsound by design.
- InterpreterIc.RunCache: what the interpreter does after an opcode has gone wrong is not modelled; such a run is followed up to that point.
- JitIc.RunJit: the stub allocator, which is not part of this model, is taken to return fresh addresses within 2 GB of the code; the machine code of a stub is its key, wrapper, immediates and miss jump; stored captures are at most 8 bytes, as the code generator asserts.
- InlineSlab.ChooseSize: the required count is any number from 1 on; the `double` product that computes it is not modelled.
- OperandExpr.PrintedDeterminesTree: assumes names that do not contain `.AsRawValue())` directly followed by ')', '+' or '-', and a struct name without ')' that does not start with '(' (the source always passes "ops"). Which names that do contain it are harmless is not characterised.
- OperandExpr.TextUnique: the same assumption on names.
- Base64.Encode: stated for inputs shorter than 2^32 bytes; on longer ones the loop never ends (Base64.EncodeEndsIff), so there is no result to state.
- Base64: `std::string_view` overloads repeat the `std::string` ones.
- Bytecode variant validation, call-frame shuffling, lambda-capture pattern matching, and all file, timer and system helpers.
