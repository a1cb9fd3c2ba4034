# Verified models of the support, cache and tooling core

A Dafny model of the most intricate parts of the repository, with proofs of what they promise.
`dafny verify dfyconfig.toml` checks everything.

| modules | what they model |
|---|---|
| `Powers`, `ApInt`, `IpInt`, `IpIntLoops` | unbounded integers built on fixed-width two's complement patterns: comparison, arithmetic, shifts, bit operations, gcd, exponentiation |
| `Euclid`, `IpRational` | rationals kept in lowest terms, and the number theory their structural equality rests on |
| `LogArena`, `LogProtocol`, `LogInvariant`, `LogTheorems`, `LogProgress`, `LogReach`, `LogDrops`, `LogFailures` | the asynchronous logger: any number of producers, one consumer, a ring of sequence-numbered slots, per-slot string arenas, `flush` and shutdown, as a state machine over single atomic steps |
| `ByteStrings`, `DiagnosticCodec` | the cached-diagnostics encoding and the payload footer |
| `Base64Url`, `BlobChain`, `BlobBackend`, `BlobRuns` | URL-safe base64 file names, and chains of in-memory and filesystem cache levels with synchronous and asynchronous operations |
| `JoinAttr`, `JoinScopes`, `JoinMap`, `JoinTuples` | the join from debug-info entries (dies) to semantic records |
| `TestShards` | splitting a test suite into shards |
| `FeatureStrings`, `Requirements` | signed feature strings, SIMD widths, and whether one target satisfies another |
| `Counting`, `HashOrder`, `ModuleHash` | hashing a module's operations in parallel, and why the result does not depend on the schedule |

Loops and objects of the source are methods and classes, each proved equal to a specification function; the
theorems are lemmas about those functions. The logger and the parallel hash are transition systems, and their theorems
hold for every interleaving and every run.

Where the code does not meet what its comments or names promise, a lemma names an input and another gives the exact
condition under which the promise holds:

- A ring of capacity one passes the power-of-two assertion but overwrites an unread record (`OneSlotOverwrites`); every
  larger power of two is safe (`Safety`).
- A record whose call counts itself in flight only after the consumer's exit test is lost although the call returns
  success, even if the call was made before the stop flag was set (`LateEnqueueIsLost`). Each sink ends with exactly the
  claims made before that test, so everything claimed is written if and only if nothing was claimed after it
  (`ExitExact`, `ShutdownContract`).
- A flush hangs for ever when it waits for a record claimed after the consumer's exit test: its wait never looks at the
  consumer again (`FlushCanHang`). After any run a waiting flush can still return if and only if its target has been
  taken or the consumer has not passed its exit test (`FlushCanReturnExactly`).
- The shutdown summary can miss a drop, because the drop is counted after the producer has left the in-flight count
  (`SummaryCanBeShort`); it is exact if and only if nothing was claimed after the exit test and no call is still
  undecided (`ShutdownContract`).
- `IPInt(uint64_t)` reads its argument as signed, so it keeps the value if and only if it is below 2^63 (`FromUint64Keeps`).
- The width of a shift is a 32-bit sum that wraps around: 100 shifted right by 2^32 + 5 gives 3 (`HugeRshiftIsWrong`),
  because a small number shifted by 2^32 + a is shifted by a alone (`RshiftForgets`). A left shift is exact if and only
  if the number is zero or the sum does not wrap (`LshiftExactly`). A right shift is exact if and only if it does not
  wrap, or the amount covers the number and what the wrapped width leaves of the number has its sign and nothing but
  sign above what is left of the amount (`RshiftExactly`).
- The decoder's string bound is a 64-bit sum of an address and a stored size. The largest size passes it everywhere
  (`LargestSizePasses`); the test is right if and only if the sum does not wrap around (`BoundTestExactly`).
- A second value for a key is lost when the cache is reopened (`SecondValueLost`); the cache looks like one map throughout
  a run if and only if every key is stored with one value (`MapExactlyIfOneValue`).
- A record identifier does not tell a missing field from the text `None` (`MissingMeetsNone`), nor where a separator
  inside a field stands (`SeparatorMoves`). It determines its tuple if and only if no field contains the separator, is
  missing or reads `None` (`IdDeterminesKeyExactly`).
- A suite of N tests does not always work with at most N shards (`TwoTestsTwoShards`); `AllShardsWork` gives the exact
  range of shard counts.
- Decoding a feature string undoes encoding if and only if the names are non-empty, comma-free and distinct, and the
  two lists are disjoint (`RoundTripExactly`).
- Lookup in a feature string ignores the last-wins rule that decoding applies (`LookupIgnoresLastWins`) and finds
  nothing through an unsigned name, which decoding enables (`UnsignedIsNotFound`). They agree on a feature if and only if two things hold:
  when the last piece naming it disables it, no piece is its plus form; when that piece is unsigned, some piece is
  (`LookupAgreesExactly`).
- A superset of the required features does not always satisfy them, because the first version of a base wins
  (`OlderFirstHidesNewer`, `SupersetsSufficeExactly`).

## Model

| member | source | states |
|---|---|---|
| IpInt.SignificantBitsLeast | Support/include/Support/IPInt.h:35-43 | a width holds a value exactly when it is at least the number of significant bits, so the stored width is the minimum |
| IpInt.FromAPInt | Support/include/Support/IPInt.h:43 | normalising to the minimum width keeps the signed value |
| IpInt.FromUint64Keeps | Support/include/Support/IPInt.h:45-48 | the unsigned constructor keeps the value if and only if it is below 2^63, and otherwise gives the value minus 2^64 |
| IpInt.EqIsValueEquality | Support/lib/IPInt.cpp:111-114 | equality of width and pattern is equality of values |
| IpInt.CmpIsOrder | Support/lib/IPInt.cpp:22-41 | the four comparisons, at the larger width, are `>`, `>=`, `<` and `<=` of the values |
| IpInt.OperandsSurvive | Support/lib/IPInt.cpp:43-72 | unless a shift's 32-bit width wraps around, the width chosen for an operation is never below either operand's, so resizing keeps both values |
| IpInt.AddSubMulExact | Support/lib/IPInt.cpp:43-84 | at the sum of the widths, saturating add, subtract and multiply never saturate: all three are exact |
| IpInt.DivModExact | Support/lib/IPInt.cpp:43-90 | division is exact truncation (minimum by -1 included) and remainder is exact at the larger width |
| IpInt.LshiftExactly | Support/lib/IPInt.cpp:43-93 | for every non-negative amount the source accepts, a left shift is the product with the power of two if and only if the number is zero or the 32-bit width does not wrap around |
| IpInt.LshiftByNegativeExactly | Support/lib/IPInt.cpp:43-93 | a left shift by a negative amount is zero if and only if the width does not wrap, or what is left of the amount is at least the wrapped width or moves every remaining bit out |
| IpInt.RshiftExactly | Support/lib/IPInt.cpp:43-96 | a right shift, by any amount of either sign, is exact if and only if the width does not wrap, or the amount is at least the number's width less one (or negative), the number cut to the wrapped width has its sign and, when the cut amount is below that width, fits in one bit more than the cut amount |
| IpInt.RshiftForgets | Support/lib/IPInt.cpp:56-61 | a small number shifted right by 2^32 + a is shifted by a alone |
| IpInt.HugeRshiftIsWrong | Support/lib/IPInt.cpp:56-61 | 100 shifted right by 2^32 + 5 is 3 and not zero |
| IpInt.LogicExact | Support/lib/IPInt.cpp:43-109 | every bit of the infinite two's complement result is the conjunction, the disjunction, or the difference of the operands' bits |
| IpInt.LogicLaws | Support/lib/IPInt.cpp:97-105 | over unbounded values, and plus or is the sum of the operands, and xor is or minus and |
| ApInt.SaturationIdle | Support/lib/IPInt.cpp:76-84 | a saturating operation whose exact result fits returns that result |
| ApInt.SaturationIsNearest | Support/lib/IPInt.cpp:76-84 | otherwise it returns the number of that width nearest to the exact result |
| ApInt.ShlInRange | Support/lib/IPInt.cpp:91-93 | a left shift whose exact result fits returns it |
| ApInt.BitwiseIsInfinite | Support/lib/IPInt.cpp:97-105 | a bitwise operation at a finite width agrees with the operation on infinite sign extensions at every bit |
| ApInt.BitwiseLaws | Support/lib/IPInt.cpp:97-105 | at one width, and plus or is the sum and xor is or minus and, over signed values |
| IpIntLoops.AbsOfExact | Support/lib/IPInt.cpp:159-164 | absolute value and negation are exact |
| IpIntLoops.GcdOf | Support/lib/IPInt.cpp:165-176 | the loop ends with a common divisor that every common divisor divides, whatever the signs |
| IpIntLoops.ParityMask | Support/lib/IPInt.cpp:186-188 | masking with one tests parity |
| IpIntLoops.ReciprocalPower | Support/lib/IPInt.cpp:183-190 | the power with a negative exponent, truncated toward zero, is one, minus one or zero, exactly as the branches say |
| IpIntLoops.ExponentiateNegative | Support/lib/IPInt.cpp:183-190 | negative exponents give the power truncated toward zero |
| IpIntLoops.SquareStep | Support/lib/IPInt.cpp:195-200 | one round of the loop keeps the product of the result and the remaining power |
| IpIntLoops.Exponentiate | Support/lib/IPInt.cpp:180-202 | fast exponentiation is the mathematical power, truncated toward zero, wherever the source's assertion allows the call |
| Euclid.Bezout | Support/lib/IPInt.cpp:165-176 | the loop's result is an integer combination of its arguments |
| Euclid.GcdIsGcd | Support/lib/IPInt.cpp:165-176 | the recursion of the loop gives a greatest common divisor, zero only for two zeros |
| Euclid.GcdUnique | Support/lib/IPInt.cpp:165-176 | greatest common divisors agree in magnitude and bound every common divisor |
| Euclid.GcdEndsChain | Support/lib/IPInt.cpp:168-175 | the result, sign included, is the last non-zero number of the chain of C++ remainders that starts with the two arguments |
| Euclid.EuclidLemma | Support/lib/IPRational.cpp:107-110 | a number dividing a product and coprime to one factor divides the other |
| Euclid.ReducedCoprime | Support/lib/IPRational.cpp:42-44 | dividing both numbers by their gcd leaves coprime numbers |
| IpRational.Construct | Support/lib/IPRational.cpp:38-49 | the constructor's assignments and sign flips end in lowest terms with a positive denominator and the same ratio |
| IpRational.ReducedIsLowest | Support/lib/IPRational.cpp:38-49 | the same of the specification function, for all signs, a zero numerator and negative gcds |
| IpRational.IntegerIsLowest | Support/lib/IPRational.cpp:50-51 | the integer constructor is in lowest terms |
| IpRational.LowestTermsUnique | Support/lib/IPRational.cpp:107-110 | in lowest terms, structural equality is equality of cross products |
| IpRational.ConstructedEqual | Support/lib/IPRational.cpp:38-49 | two constructed rationals are structurally equal exactly when the given cross products are |
| IpRational.ArithmeticExact | Support/lib/IPRational.cpp:86-105 | all four operations return lowest terms whose real value is the exact result |
| IpRational.CompareIsRealOrder | Support/lib/IPRational.cpp:70-83 | equality and the four comparisons built from it and `>` are those of the reals |
| IpRational.AbsRationalExact | Support/lib/IPRational.cpp:139-143 | the absolute value is canonical and exact |
| LogArena.CopyBytes | Support/lib/Log.cpp:501 | the copy overwrites exactly its range of the arena |
| LogArena.CopyOne | Support/lib/Log.cpp:495-508 | one argument is copied, clipped or replaced by the empty view as specified |
| LogArena.CopyArgKeeps | Support/lib/Log.cpp:494-509 | copying one more argument keeps every earlier argument readable and adds the promised one |
| LogArena.CopyStrings | Support/lib/Log.cpp:489-509 | after the loop every argument reads as promised from the arena and no view passes the used part |
| LogTheorems.PromisedIsPrefix | Support/lib/Log.cpp:489-509 | what a string argument promises is a prefix of the caller's text, clipped only when the arena is full |
| LogTheorems.PromisedIsComplete | Support/lib/Log.cpp:494-497 | a line carries the record's metadata, whatever its arguments, and for each argument exactly what that one promises; an argument that is not a string is kept and takes no room |
| LogProtocol.MaskIsModulo | Support/include/Support/MpscRingBuffer.h:67-74 | masking with a power of two minus one is the remainder |
| LogProtocol.WindowDistinct | Support/include/Support/MpscRingBuffer.h:81-101 | positions less than a capacity apart use different slots |
| LogProtocol.ApplyWellFormed | Support/lib/Log.cpp:479-563 | every step keeps the shape of the shared memory and the set of threads |
| LogInvariant.InitialInv | Support/include/Support/MpscRingBuffer.h:67-74 | the freshly constructed ring satisfies the invariant |
| LogInvariant.FreeAtEnd | Support/include/Support/MpscRingBuffer.h:81-97 | if the slot at the enqueue position carries that position, fewer than a capacity of slots are in use |
| LogInvariant.CasKeeps | Support/include/Support/MpscRingBuffer.h:87-90 | a successful claim keeps the invariant, however stale the loaded sequence number is |
| LogInvariant.CasEitherKeeps | Support/include/Support/MpscRingBuffer.h:87-90 | a claim attempt keeps the invariant whether it succeeds, loses a race or fails spuriously |
| LogInvariant.LoadSequenceKeeps | Support/include/Support/MpscRingBuffer.h:84-95 | reading the sequence number, and giving up when full, keeps the invariant |
| LogDrops.LoadSequenceExactly | Support/include/Support/MpscRingBuffer.h:83-96 | a producer gives up if and only if its position is the next one and every slot is claimed and unreleased; it goes on to claim exactly when the position is free or claimed and unpublished, and otherwise loads again |
| LogDrops.CasExactly | Support/include/Support/MpscRingBuffer.h:87-90 | a compare-and-swap claims exactly when nobody has taken the position and it does not fail spuriously; a loser holds the position that is next now |
| LogDrops.DropsAreDecided | Support/lib/Log.cpp:479-486 | over every run, drops counted and still to be counted are exactly the reads of the next position in a full ring |
| LogDrops.EnqueuesAlone | Support/lib/Log.cpp:479-515 | undisturbed, an enqueue that finds room claims, publishes and returns in a stated number of steps |
| LogDrops.DropsAlone | Support/lib/Log.cpp:482-486 | undisturbed, an enqueue that finds the ring full counts one drop and changes nothing else |
| LogInvariant.CopyKeeps | Support/lib/Log.cpp:494-509 | copying one argument into the claimed arena keeps the invariant |
| LogInvariant.StoreKeeps | Support/lib/Log.cpp:511 | storing the record in the claimed slot keeps the invariant |
| LogInvariant.PublishKeeps | Support/include/Support/MpscRingBuffer.h:104-106 | publishing keeps the invariant |
| LogInvariant.PeekSeesPublished | Support/include/Support/MpscRingBuffer.h:111-118 | a non-null peek returns a published, unconsumed position |
| LogInvariant.RenderKeeps | Support/lib/Log.cpp:524-526 | rendering one argument of the held record keeps the invariant |
| LogInvariant.WriteKeeps | Support/lib/Log.cpp:526 | writing the rendered line to one sink keeps the invariant |
| LogInvariant.ReleaseKeeps | Support/include/Support/MpscRingBuffer.h:126-128 | releasing the slot for the next lap keeps the invariant |
| LogInvariant.AdvanceKeeps | Support/include/Support/MpscRingBuffer.h:129 | advancing the consumer position keeps the invariant |
| LogInvariant.FlushOneKeeps | Support/lib/Log.cpp:517-520 | flushing one sink keeps the invariant |
| LogInvariant.StepKeeps | Support/lib/Log.cpp:479-563 | every step of every thread keeps the invariant, for every capacity of at least two |
| LogTheorems.Safety | Support/lib/Log.cpp:479-563 | the invariant holds after every run of any number of threads |
| LogTheorems.LivePositionsApart | Support/include/Support/MpscRingBuffer.h:81-106 | two live positions never share a masked index |
| LogTheorems.OnlyOwnerWrites | Support/lib/Log.cpp:489-511 | a slot or arena changes only by a copy or store of the thread that claimed it |
| LogTheorems.PublishedIsFrozen | Support/lib/Log.cpp:522-527 | no step of anyone changes the item or the arena of a published record |
| LogTheorems.RenderedAsPromised | Support/lib/Log.cpp:524-526 | while the consumer holds a record every argument reads as the claimed record promises |
| LogTheorems.WrittenInClaimOrder | Support/lib/Log.cpp:522-531 | each sink holds the promised lines of a prefix of the claims, the consumed ones included, in claim order, each once |
| LogTheorems.WrittenLineIs | Support/lib/Log.cpp:489-526 | line p of every sink is the whole of claim p: its metadata, one reading an argument, each number as passed and each string as the prefix of the caller's text that fitted the arena after the strings before it |
| LogTheorems.RunCounts | Support/lib/Log.cpp:479-515 | over every run the in-flight counter counts the calls in flight, and calls are claims plus drops plus undecided calls |
| LogTheorems.FlushedWhenDone | Support/lib/Log.cpp:547-563 | when a flush is about to return, every record returned before it began is written and flushed in every sink |
| LogTheorems.ClaimsGrow | Support/include/Support/MpscRingBuffer.h:87-90 | a run only appends to the claims, so a claimed record keeps its position |
| LogTheorems.FlushContract | Support/lib/Log.cpp:547-563 | across every run from the call of flush to its return: every record that had returned before the call is written, as it was claimed, and flushed in every sink |
| LogTheorems.ExitSplits | Support/lib/Log.cpp:529-532 | the consumer comes to exit only by passing its exit test |
| LogTheorems.ExitExact | Support/lib/Log.cpp:522-545 | once the exit test passes, after every further run each sink holds exactly the lines of the claims made before it; all claims are written if and only if none was made after it |
| LogTheorems.ShutdownContract | Support/lib/Log.cpp:462-545 | on every run that ends with the consumer stopped, each sink holds, flushed, exactly the claims made before the exit test; everything claimed is written if and only if nothing was claimed after it, and written plus dropped is the number of calls if and only if moreover no call is undecided |
| LogTheorems.QuietShutdown | Support/lib/Log.cpp:462-468 | it is enough that no call counts itself in flight after the stop flag is set: then all claims are written once, in order and flushed |
| LogProgress.OwnedStep | Support/lib/Log.cpp:479-563 | every step keeps, for every claim that is not published, a thread that is about to publish it |
| LogProgress.AllPublished | Support/lib/Log.cpp:529-532 | when nobody is in flight every claim in the ring is published |
| LogProgress.RunsDrain | Support/lib/Log.cpp:479-563 | every run with nobody in flight is in a state from which the consumer catches up, and drains if the stop flag is set |
| LogProgress.DrainStep | Support/lib/Log.cpp:522-545 | from there each step of the consumer uses up exactly one of the steps it needs |
| LogProgress.StopsByItself | Support/lib/Log.cpp:522-545 | the consumer's own steps stop it, after exactly the stated number of steps |
| LogProgress.DrainsCompletely | Support/lib/Log.cpp:462-545 | and every claim is then written, in order and flushed, in every sink |
| LogReach.ReadyStep | Support/lib/Log.cpp:479-563 | no step of anyone makes a published stretch of the ring unpublished before it is taken |
| LogReach.CatchesUp | Support/lib/Log.cpp:522-543 | a running consumer takes every position before m by its own steps, in a stated number of them, as soon as all of them are published, whatever else is in flight |
| LogReach.NeverOvertakes | Support/include/Support/MpscRingBuffer.h:111-118 | on every run of any threads the consumer takes a claimed position only if the run publishes it |
| LogReach.TakesExactly | Support/lib/Log.cpp:522-543 | the consumer alone comes to have taken everything before m if and only if it has already, or it has not passed its exit test and every position before m is published |
| LogReach.FlushBegins | Support/lib/Log.cpp:550-552 | while there is a consumer thread to join, a call of flush comes to its wait in every state, with the enqueue position as its target |
| LogReach.FlushReturns | Support/lib/Log.cpp:547-563 | a waiting flush whose target is published returns, by the consumer's steps and its own and in a stated number of them, whatever else is in flight; every sink is then flushed up to the target |
| LogReach.FlushCallReturns | Support/lib/Log.cpp:547-563 | the same from the call of flush on, when everything claimed is published |
| LogReach.FlushReturnsExactly | Support/lib/Log.cpp:547-563 | a waiting flush can return by its own steps and the consumer's if and only if its target has been taken, or the consumer has not passed its exit test and every position before the target is published |
| LogReach.FlushNeverDeadlocks | Support/lib/Log.cpp:479-563 | after every run in which the consumer has not passed its exit test, a waiting flush can still return: the producers that have claimed finish, then the consumer and the flush, with no new call |
| LogReach.HungForGood | Support/lib/Log.cpp:553-554 | once the consumer has passed its exit test, no run of any threads ends the wait of a flush whose target has not been taken |
| LogReach.FlushCanReturnExactly | Support/lib/Log.cpp:547-563 | after every run, some further run of any threads lets a waiting flush return if and only if its target has been taken or the consumer has not passed its exit test |
| LogProgress.IdleRoundFlushes | Support/lib/Log.cpp:533-544 | over every run, whenever the consumer goes back to the ring or stops after a round of flushing, every sink is flushed |
| LogProgress.EmptyRingIsFlushed | Support/lib/Log.cpp:528-545 | on every run, what was written when the ring was found empty is flushed in every sink before the consumer looks at the ring again or stops |
| LogFailures.OneSlotOverwrites | Support/include/Support/MpscRingBuffer.h:67-97 | with capacity one and any number of sinks a second claim overwrites a record that nobody has read |
| LogFailures.LateEnqueueIsLost | Support/lib/Log.cpp:479-515 | with any number of sinks, a call that counts itself in flight after the exit test publishes its record and returns success, and no sink has it, whether the call was made before or after the stop flag was set |
| LogFailures.FlushCanHang | Support/lib/Log.cpp:547-554 | with any capacity and any number of sinks, a flush called after a late enqueue is in a wait from which no run of any threads brings it back |
| LogFailures.SummaryCanBeShort | Support/lib/Log.cpp:482-486 | the consumer can exit with a drop that no counter shows yet |
| DiagnosticCodec.ReadInt | Cache/lib/CachedTransform.cpp:129-135 | reading an integer succeeds exactly when eight bytes remain, and leaves a suffix |
| DiagnosticCodec.WordRoundTrip | Cache/lib/CachedTransform.cpp:129-135 | every 64-bit count is read back, leaving exactly what followed |
| DiagnosticCodec.StringRoundTrip | Cache/lib/CachedTransform.cpp:107-111 | every string is read back, leaving exactly what followed |
| DiagnosticCodec.WordLayout | Cache/lib/CachedTransform.cpp:104-114 | counts and sizes are eight bytes, the lowest first |
| DiagnosticCodec.StringLayout | Cache/lib/CachedTransform.cpp:107-111 | a string is its size, its bytes and a zero byte, which the location parser relies on |
| DiagnosticCodec.DiagnosticLayout | Cache/lib/CachedTransform.cpp:115-120 | a diagnostic is its severity, its terminated location and message, and its notes, at the stated offsets |
| DiagnosticCodec.ListLayout | Cache/lib/CachedTransform.cpp:113-115 | an empty list is a zero count; one more diagnostic raises the count and follows the bytes of those before it |
| DiagnosticCodec.ReadStringFails | Cache/lib/CachedTransform.cpp:138-147 | which of the two errors a string gives, exactly |
| DiagnosticCodec.ReadsExactly | Cache/lib/CachedTransform.cpp:138-147 | a string is read if and only if the data starts with its size, its bytes and one more byte, and exactly what follows is left |
| DiagnosticCodec.DecodesExactly | Cache/lib/CachedTransform.cpp:125-185 | the decoder is exactly the grammar of the format: any data decodes to a list with a rest if and only if it is the bytes of that list followed by that rest, and fails if and only if no beginning of it is the bytes of any list |
| DiagnosticCodec.FirstFailure | Cache/lib/CachedTransform.cpp:154-182 | a diagnostic fails with the first thing that is wrong with it, in the order severity, location string, location, message, notes, and decodes if nothing is |
| DiagnosticCodec.ListFailure | Cache/lib/CachedTransform.cpp:150-184 | a list that does not decode fails for its length when fewer than eight bytes are there, and otherwise with the error of the first diagnostic that does not decode, everything before it being the bytes of fewer diagnostics than the length asks for |
| DiagnosticCodec.ListStable | Cache/lib/CachedTransform.cpp:125-185 | what decodes still decodes when more bytes follow, and leaves them unread |
| DiagnosticCodec.TruncationIsDetected | Cache/lib/CachedTransform.cpp:125-185 | every proper prefix of an encoding is refused |
| DiagnosticCodec.WriteString | Cache/lib/CachedTransform.cpp:107-111 | the functor appends exactly the encoding |
| DiagnosticCodec.EncodeDiagnostics | Cache/lib/CachedTransform.cpp:102-121 | the loop over diagnostics and nested notes appends exactly the encoding |
| DiagnosticCodec.WriteDiagnostic | Cache/lib/CachedTransform.cpp:115-120 | one diagnostic with its notes is appended |
| DiagnosticCodec.DecodeDiagnostics | Cache/lib/CachedTransform.cpp:125-185 | on any bytes the decoder ends, stays within the data, and returns the specified list or error |
| DiagnosticCodec.DecodeDiagnostic | Cache/lib/CachedTransform.cpp:154-182 | one diagnostic is read within the data and consumes at least one byte |
| DiagnosticCodec.BoundTestExactly | Cache/lib/CachedTransform.cpp:142-143 | over 64-bit addresses the string bound is right if and only if its sum does not wrap around, and it never refuses a string that fits |
| DiagnosticCodec.LargestSizePasses | Cache/lib/CachedTransform.cpp:142-143 | a stored size of 2^64 - 1 passes the bound at every address |
| DiagnosticCodec.ReadStringByAddress | Cache/lib/CachedTransform.cpp:138-147 | whatever string the model reads, the bound over addresses lets through, and they agree on every size that does not wrap around |
| DiagnosticCodec.OneRoundTrip | Cache/lib/CachedTransform.cpp:115-182 | one diagnostic tree is read back, leaving exactly the trailer |
| DiagnosticCodec.RoundTrip | Cache/lib/CachedTransform.cpp:102-195 | every list of diagnostic trees followed by any trailer decodes to that list and exactly the trailer |
| DiagnosticCodec.EncodingUnambiguous | Cache/lib/CachedTransform.cpp:102-121 | two lists with the same bytes up to trailers are the same list with the same trailer |
| DiagnosticCodec.UnpackPack | Cache/lib/CachedTransform.cpp:326-336 | unpacking through the footer returns the bytecode and the diagnostics, and only the footer is left unread |
| DiagnosticCodec.UnpackExactly | Cache/lib/CachedTransform.cpp:326-336 | any payload with a footer in range unpacks to a bytecode and diagnostics if and only if it is that many bytes as its footer says, then the bytes of those diagnostics, then the unread rest; otherwise it fails with the error of the diagnostics |
| DiagnosticCodec.PackLayout | Cache/lib/CachedTransform.cpp:291-299 | the bytecode comes first, its size is the last eight bytes, and the encoded diagnostics are what is between |
| DiagnosticCodec.FooterTooLarge | Cache/lib/CachedTransform.cpp:326-336 | a footer that points into itself or to the end leaves nothing to decode |
| Base64Url.ReplaceAll | Support/lib/Base64.cpp:31-32 | the loop replaces exactly the occurrences of one character |
| Base64Url.AlphabetIs | Support/lib/Base64.cpp:30 | the characters are table 1 of RFC 4648 in its order, and reading inverts it |
| Base64Url.GroupIsNumber | Support/lib/Base64.cpp:30 | four characters carry the bits of three bytes, the highest first |
| Base64Url.UrlSafeIs | Support/lib/Base64.cpp:29-40 | the whole text of every encoding: its length, and at each position the character of section 5 of RFC 4648 for those six bits of the input, zeros past its end |
| Base64Url.StandardRoundTrip | Support/lib/Base64.cpp:30 | standard base64 decoding undoes encoding |
| Base64Url.EncodeUrlSafe | Support/lib/Base64.cpp:29-40 | the encoder computes the specified text, and that text decodes to the input |
| Base64Url.UrlSafeShape | Support/lib/Base64.cpp:33-38 | the loop that drops at most three characters drops exactly the padding |
| Base64Url.Restored | Support/lib/Base64.cpp:46-52 | undoing the replacements and padding to four restores the standard encoding |
| Base64Url.DecodeUrlSafe | Support/lib/Base64.cpp:44-60 | the decoder computes the specified bytes or fails, on every text |
| Base64Url.DecodesExactly | Support/lib/Base64.cpp:44-60 | a text decodes if and only if its padding, typed and added, is at most two characters at the end and every other character is of either alphabet |
| Base64Url.DecodedGroupIsNumber | Support/lib/Base64.cpp:55-60 | the three bytes of a decoded group are the 24 bits of its four characters, the highest first |
| Base64Url.DecodesTo | Support/lib/Base64.cpp:44-60 | the length and every byte of what any accepted text decodes to, from the six bits at each of its positions |
| Base64Url.RoundTrip | Support/lib/Base64.cpp:29-60 | decoding undoes encoding for every byte string that is not empty |
| Base64Url.Injective | Cache/lib/BlobCache.cpp:529-541 | different keys have different file names |
| Base64Url.FilenameSafe | Support/lib/Base64.cpp:29-40 | the encoding is non-empty and holds only letters, digits, `-` and `_` |
| BlobChain.ReadFileExact | Cache/lib/BlobCache.cpp:470-527 | a file reads as a hit with a value exactly when it is that value sealed with its hash |
| BlobChain.SealLayout | Cache/lib/BlobCache.cpp:427-435 | a file is the value and then the sixteen bytes of its digest |
| BlobChain.FileNameIs | Cache/lib/BlobCache.cpp:529-541 | a file name is the unpadded URL-safe encoding of its key, character by character, holds only letters, digits, `-` and `_`, and decodes to the key |
| BlobChain.InsertAt | Cache/lib/BlobCache.cpp:385-449 | at every level of any chain: memory takes the value, and a directory gets exactly one sealed file if it is writable and no level from it on has the key |
| BlobChain.DirectoryChangesExactly | Cache/lib/BlobCache.cpp:385-400 | a directory changes if and only if it is writable and no level from it on has the key |
| BlobChain.ReadOnlyIsSpared | Cache/lib/BlobCache.cpp:395-400 | neither insert nor find, synchronous or asynchronous, changes a read-only directory at any level |
| BlobChain.FindAnswersFirst | Cache/lib/BlobCache.cpp:284-299 | a find answers as the first level that contains the key, errors included, and misses exactly when none does |
| BlobChain.FindHits | Cache/lib/BlobCache.cpp:284-299 | a find answers with the value that the first level having the key maps it to in memory, or has in a file, read-only or not, that is the value and its digest |
| BlobChain.ContainsExactly | Cache/lib/BlobCache.cpp:203-214 | a key is contained exactly when some level maps it or has its file, and a find misses exactly the other keys |
| BlobChain.BadFileFailsFind | Cache/lib/BlobCache.cpp:491-517 | when the first level that has the key is a directory with a bad file, the find fails, whatever lies below, and changes nothing; an empty file, one shorter than a digest and one with another digest each have their own error |
| BlobChain.FindLeavesExactly | Cache/lib/BlobCache.cpp:284-309 | a hit from below the first level leaves exactly the chain with that value inserted; any other answer, errors included, leaves the chain as it was |
| BlobChain.FindPromotes | Cache/lib/BlobCache.cpp:300-308 | after a hit from below, every memory level holds the value besides what it held, and a directory gets it if and only if it is writable and no level from it on has the key |
| BlobChain.InsertMonotone | Cache/lib/BlobCache.cpp:139-148 | an insert never removes a key from any chain |
| BlobChain.InsertIdempotent | Cache/lib/BlobCache.cpp:139-148 | inserting the same value again changes nothing at any level |
| BlobChain.InsertAsyncAgrees | Cache/lib/BlobCache.cpp:105-166 | the asynchronous insert, which revisits deeper levels, leaves the same chain as the synchronous one |
| BlobChain.ContainsAsyncAgrees | Cache/lib/BlobCache.cpp:168-231 | the asynchronous test answers as the synchronous one |
| BlobChain.MissLeavesChain | Cache/lib/BlobCache.cpp:284-299 | a find that misses changes nothing |
| BlobChain.FindAsyncAgrees | Cache/lib/BlobCache.cpp:233-328 | the asynchronous find gives the same answer and the same chain as the synchronous one |
| BlobChain.HitIsContained | Cache/lib/BlobCache.cpp:284-309 | after a hit the chain contains the key |
| BlobChain.DirectoryAboveIsNotFilled | Cache/lib/BlobCache.cpp:385-393 | a hit is never promoted into a directory, at any level, from which on some level has the key |
| BlobBackend.Backend.InMemory | Cache/lib/BlobCache.cpp:369-371 | a new in-memory node is an empty one-level chain |
| BlobBackend.Backend.Filesystem | Cache/lib/BlobCache.cpp:381-383 | a new filesystem node is a one-level chain over the directory's files |
| BlobBackend.Backend.ContainsSync | Cache/lib/BlobCache.cpp:203-214 | the linked nodes answer as the chain they represent |
| BlobBackend.Backend.InsertSyncImpl | Cache/lib/BlobCache.cpp:385-449 | memory takes the value; a directory gets one sealed file unless it is read-only or the chain has the key; the delegate is untouched |
| BlobBackend.Backend.InsertSync | Cache/lib/BlobCache.cpp:139-148 | the linked nodes represent the inserted chain |
| BlobBackend.Backend.FindSync | Cache/lib/BlobCache.cpp:284-309 | answer and resulting chain are those specified, including promotion and errors |
| BlobBackend.Backend.InsertThenDelegate | Cache/lib/BlobCache.cpp:105-137 | the asynchronous insert leaves the chain of the synchronous one |
| BlobBackend.Backend.ContainsThenDelegate | Cache/lib/BlobCache.cpp:168-201 | the asynchronous test equals the synchronous one |
| BlobBackend.Backend.FindThenDelegate | Cache/lib/BlobCache.cpp:233-282 | the asynchronous find gives the answer and the chain of the synchronous one |
| BlobBackend.Backend.AppendDelegate | Cache/lib/BlobCache.cpp:330-335 | the new chain is linked after the last node and nothing else changes |
| BlobRuns.InsertEffect | Cache/lib/BlobCache.cpp:139-148 | an insert reaches every memory level, and the directory only if the file is new |
| BlobRuns.FindMatches | Cache/lib/BlobCache.cpp:284-309 | find answers what is visible, and a hit from below is put on every level above |
| BlobRuns.ContainsMatches | Cache/lib/BlobCache.cpp:203-214 | a key is contained exactly when the directory, read by key, has it |
| BlobRuns.RunMatches | Cache/lib/BlobCache.cpp:139-309 | over every run, also with several values per key, the chain answers as a session map over a disk map |
| BlobRuns.CacheIsAMap | Cache/lib/BlobCache.cpp:139-541 | with one value per key every run of insert, contains, find and reopening is observationally a single map |
| BlobRuns.MapExactlyIfOneValue | Cache/lib/BlobCache.cpp:139-541 | the chain looks like a map at every point of a run if and only if the run keeps one value per key |
| BlobRuns.MapOnlyIfOneValue | Cache/lib/BlobCache.cpp:345-393 | any run that gives a key a second value can be cut and extended to tell the chain from a map |
| BlobRuns.SecondValueLost | Cache/lib/BlobCache.cpp:385-393 | after a second value and a reopening the chain answers with the first value |
| JoinAttr.FindAttr | spikes/mojo-join-map.py:73-89 | the recursion with its shared mutable visited set ends on every graph and computes the specified search |
| JoinAttr.SearchFails | spikes/mojo-join-map.py:73-89 | a failed search has visited everything it could reach |
| JoinAttr.SearchSucceeds | spikes/mojo-join-map.py:73-89 | a successful search comes with a path to a die holding the value |
| JoinAttr.AttrExact | spikes/mojo-join-map.py:73-89 | on any graph, cyclic ones included, a value is found exactly when a reachable die has the attribute |
| JoinAttr.SharingIsHarmless | spikes/mojo-join-map.py:77-88 | sharing the visited set across both links gives the same value as a search that only avoids its own path |
| JoinAttr.NearestFirst | spikes/mojo-join-map.py:81-88 | an entry's own value comes first, then whatever a lookup from its abstract origin finds in the graph without the entry, and only if that is nothing, what a lookup from its specification finds there |
| JoinAttr.LinksAre | spikes/mojo-join-map.py:83-85 | an entry is linked exactly to the known offsets its two link attributes start with |
| JoinAttr.TargetExactly | spikes/mojo-join-map.py:83-85 | a link leads exactly to the known offset that the attribute of that very name starts with |
| JoinAttr.RefExactly | spikes/mojo-join-map.py:68-70 | a reference is the longest hexadecimal offset a value starts with |
| JoinScopes.ParentIs | spikes/mojo-join-map.py:110-111 | the parent is the last earlier die of smaller depth |
| JoinScopes.PopTo | spikes/mojo-join-map.py:110-111 | popping leaves the parent of the current die on top |
| JoinScopes.InnermostIsNearest | spikes/mojo-join-map.py:113-116 | on a stack that is a lineage the innermost scope is the nearest proper ancestor scope |
| JoinScopes.FindScope | spikes/mojo-join-map.py:113-116 | the reversed scan finds the innermost scope |
| JoinScopes.EnclosingScopes | spikes/mojo-join-map.py:107-118 | one pass computes the specified table |
| JoinScopes.ScopeOf | spikes/mojo-join-map.py:107-118 | the table gives each variable its nearest proper ancestor that is a scope, and nothing else |
| JoinScopes.ScopeByParent | spikes/mojo-join-map.py:107-118 | by tags: a function or inlined function around a variable is its scope, any other parent passes on its own scope |
| JoinScopes.OnlyVariablesHaveScopes | spikes/mojo-join-map.py:112-116 | only variables and formal parameters have a scope recorded |
| JoinMap.IdsAgreeExactly | spikes/mojo-join-map.py:134-139 | without collisions, any two tuples share an identifier exactly when the separator-cut pieces of their fields agree in order |
| JoinMap.IdDeterminesKeyExactly | spikes/mojo-join-map.py:134-139 | without collisions, an identifier determines its tuple if and only if no field contains the separator, is missing or reads None |
| JoinMap.PlainAreApart | spikes/mojo-join-map.py:134-139 | without collisions, tuples with no inner separator before the last field and no field reading None, missing fields allowed, share an identifier exactly when they are equal |
| JoinMap.SameTextIsSameKey | spikes/mojo-join-map.py:137-138 | the printed fields tell a tuple apart from all others if and only if no field is missing or reads None |
| JoinMap.MissingMeetsNone | spikes/mojo-join-map.py:137-138 | a missing field and the text None give one identifier for two keys |
| JoinMap.SeparatorMoves | spikes/mojo-join-map.py:137-138 | a separator inside a field gives one identifier for two keys |
| JoinMap.Build | spikes/mojo-join-map.py:142-161 | the loop builds the specified tables |
| JoinMap.RecordIdIs | spikes/mojo-join-map.py:134-139 | an identifier is the digest of the five fields in order, a missing one printed as None, with one separator between each two and none at the ends |
| JoinMap.BuildOffsets | spikes/mojo-join-map.py:147-154 | exactly the variables are mapped, each to the identifier of its own tuple |
| JoinMap.BuildInverse | spikes/mojo-join-map.py:152-154 | offsets and records are mutually inverse, die lists have no repetition, and each record sits under its key's identifier |
| JoinMap.RecordHolds | spikes/mojo-join-map.py:152-154 | a record lists exactly the variables with its identifier, in the order of the dies, under the tuple of the first of them |
| JoinMap.MembersInOrder | spikes/mojo-join-map.py:152-153 | the dies of a record by position: exactly the variables with its identifier, each once and in the order of the dies |
| JoinMap.ShareARecord | spikes/mojo-join-map.py:142-161 | without collisions, any two variables share a record exactly when the pieces of their tuples agree; that is equality of the tuples as soon as one of them is determined by its identifier, or both are plain |
| JoinTuples.UnquoteExactly | spikes/mojo-join-map.py:92-96 | unquoting takes exactly one pair of quotes off and leaves any other text as it is |
| JoinTuples.SpacesAre | spikes/mojo-join-map.py:103 | the characters trimmed after a type are the listed white space characters and no other |
| JoinTuples.QuotedType | spikes/mojo-join-map.py:99-104 | a type is the text between its first and its last quote when only white space follows |
| JoinTuples.BareType | spikes/mojo-join-map.py:99-104 | any other type is taken as written, and an empty or missing one is no type |
| JoinTuples.TupleHolds | spikes/mojo-join-map.py:121-131 | variable, file, line and type come each from their own attribute of the die, and the function from the non-empty linkage name, else the name, of the nearest scope |
| JoinTuples.EntitiesShareRecords | spikes/mojo-join-map.py:142-161 | without collisions, two variables with plain tuples share a record if and only if all five looked-up values agree |
| JoinMap.Validate | spikes/mojo-join-map.py:164-178 | the two scans report the unmapped dies, each as often as listed and in order, and the first mislisted die if there is one |
| JoinMap.UnmappedAre | spikes/mojo-join-map.py:170-172 | the report holds exactly the dies that are not mapped, and is empty exactly when all are |
| JoinMap.UnmappedInOrder | spikes/mojo-join-map.py:170 | the report by position: exactly the dies that are not mapped, in the order in which they come |
| JoinMap.AllVarsInOrder | spikes/mojo-join-map.py:167 | the checked dies are exactly those tagged as variable or formal parameter, each once a die and in the order of the dies |
| JoinMap.MislistedIs | spikes/mojo-join-map.py:174-178 | a die is mislisted exactly when the map gives it an identifier that is not empty and no entry of that record's list is the die |
| JoinMap.BuiltMapIsValid | spikes/mojo-join-map.py:164-178 | a built map has no missing and no mislisted die |
| JoinMap.Ambiguous | spikes/mojo-join-map.py:180-186 | the grouping loop reports exactly the tuples that two or more records share, each with all of those records |
| JoinMap.AmbiguityIsInTheType | spikes/mojo-join-map.py:180-186 | a tuple is reported exactly when two different records share it, and records that share one are told apart by their type alone |
| TestShards.FindPlace | bazel/internal/pytest-shard.py:79-91 | the loop over markers computes the place |
| TestShards.PlaceExactly | bazel/internal/pytest-shard.py:79-91 | a test has a place of its own exactly when its first special marker asks for it, whatever ordinary markers precede it, and none exactly when all are ordinary |
| TestShards.SplitSuite | bazel/internal/pytest-shard.py:72-91 | the loop computes the specified split |
| TestShards.FilterByShard | bazel/internal/pytest-shard.py:62-116 | the method returns the specified shard or reports too few shards |
| TestShards.SplitWellFormed | bazel/internal/pytest-shard.py:72-91 | group names are distinct and every group is non-empty |
| TestShards.SplitSelects | bazel/internal/pytest-shard.py:72-91 | each collection holds exactly the items of its place, in suite order |
| TestShards.SelectInOrder | bazel/internal/pytest-shard.py:72-91 | a collection by position: exactly the tests of its place, each at its position in the suite |
| TestShards.StridesPartition | bazel/internal/pytest-shard.py:116 | the strides of a list together hold every element as often as the list |
| TestShards.StrideLength | bazel/internal/pytest-shard.py:116 | the length of each stride |
| TestShards.StrideAt | bazel/internal/pytest-shard.py:116 | a stride takes every n-th element from its start, in order |
| TestShards.ShardsPartition | bazel/internal/pytest-shard.py:62-116 | with enough shards, all shards together hold each test exactly as often as the suite |
| TestShards.DedicatedShards | bazel/internal/pytest-shard.py:72-93 | there is one dedicated shard a unique test and one a group name, however many tests share the name |
| TestShards.RefusedExactly | bazel/internal/pytest-shard.py:93-97 | a suite is refused, in every shard, if and only if its unique tests and distinct group names leave no shard to spare |
| TestShards.SpecialShards | bazel/internal/pytest-shard.py:99-106 | by markers: a specially marked test is in exactly one shard; alone if its first special marker is the unique one, else with exactly the tests whose first special marker names the same group |
| TestShards.GroupsInOrder | bazel/internal/pytest-shard.py:85-106 | group shards come in the order in which the suite first names their groups |
| TestShards.RoundRobin | bazel/internal/pytest-shard.py:108-116 | the k-th of the n shards that are not dedicated runs exactly the unmarked tests number k, k + n, k + 2n and so on, in suite order |
| TestShards.RemainingBalanced | bazel/internal/pytest-shard.py:110-116 | the remaining shards differ in size by at most one, earlier ones being larger |
| TestShards.AllShardsWork | bazel/internal/pytest-shard.py:93-116 | every shard gets work if and only if the shard count is within the stated range |
| TestShards.TwoTestsTwoShards | bazel/internal/pytest-shard.py:112-115 | two tests on two shards can leave a shard empty or be refused |
| FeatureStrings.EncodeFeatures | Support/lib/DeviceSpecs.cpp:86-101 | the two loops give the comma-joined signed names |
| FeatureStrings.EncodeIs | Support/lib/DeviceSpecs.cpp:86-101 | the text itself: empty for no names, and each further name adds its sign and itself, after a comma unless it is the first |
| FeatureStrings.SignedTokens | Support/lib/DeviceSpecs.cpp:86-101 | the pieces of an encoding are the enabled names with a plus, then the disabled ones with a minus |
| FeatureStrings.DecodeFeatures | Support/lib/DeviceSpecs.cpp:103-141 | the loops compute the specified lists, or the error for a bare sign |
| FeatureStrings.TokensOfAnyJoin | Support/lib/DeviceSpecs.cpp:104-105 | splitting comma-joined pieces gives the pieces that are not empty, in order, wherever the empty ones stand |
| FeatureStrings.TokensOfJoin | Support/lib/DeviceSpecs.cpp:104-105 | splitting undoes joining for non-empty comma-free pieces |
| FeatureStrings.SeeAllConsistent | Support/lib/DeviceSpecs.cpp:112-132 | the order list names each tracked name exactly once |
| FeatureStrings.DecodedAreWellNamed | Support/lib/DeviceSpecs.cpp:103-141 | whatever decodes gives non-empty, comma-free, distinct and disjoint names |
| FeatureStrings.RoundTripExactly | Support/lib/DeviceSpecs.cpp:86-141 | decoding undoes encoding, in order, if and only if the names are non-empty, comma-free, distinct and disjoint |
| FeatureStrings.LastWins | Support/lib/DeviceSpecs.cpp:107-140 | on any string that decodes, a name is enabled or disabled exactly as the last piece naming it says |
| FeatureStrings.DecodedInOrder | Support/lib/DeviceSpecs.cpp:107-139 | both decoded lists name their features in the order the string first names them |
| FeatureStrings.FailsExactly | Support/lib/DeviceSpecs.cpp:118-120 | decoding fails exactly when some piece is a lone plus or a lone minus |
| FeatureStrings.PieceNames | Support/lib/DeviceSpecs.cpp:114-127 | a piece names a feature by itself unless it starts with a sign, or after either sign, and only a minus disables |
| FeatureStrings.DecodeIsStable | Support/lib/DeviceSpecs.cpp:86-141 | re-encoding a decoded string decodes to the same lists |
| FeatureStrings.HasFeature | Support/lib/DeviceSpecs.cpp:75-84 | the loop finds a feature exactly when some piece enables it |
| FeatureStrings.HasExactlyTheFeatures | Support/lib/DeviceSpecs.cpp:75-101 | on an encoding, lookup is membership in the enabled list |
| FeatureStrings.LookupIgnoresLastWins | Support/lib/DeviceSpecs.cpp:107-110 | an enabled and then disabled feature is found by lookup and disabled by decoding |
| FeatureStrings.UnsignedIsNotFound | Support/lib/DeviceSpecs.cpp:123-127 | a string that is one unsigned name decodes to that name enabled, and lookup does not find it |
| FeatureStrings.LookupAgreesExactly | Support/lib/DeviceSpecs.cpp:75-141 | on every string that decodes and every feature, lookup and decoding agree if and only if: when the last piece naming it disables it, no piece is its plus form, and when that piece is unsigned, some piece is |
| FeatureStrings.WidthFromList | Support/lib/DeviceSpecs.cpp:582-590 | the early-exit loop returns the widest width of the listed features |
| FeatureStrings.WidthFromString | Support/lib/DeviceSpecs.cpp:570-580 | the loop returns the widest width of the enabled pieces |
| FeatureStrings.EnabledExactly | Support/lib/DeviceSpecs.cpp:574-577 | the pieces that count are those that do not disable, signed or not |
| FeatureStrings.WidthExactly | Support/lib/DeviceSpecs.cpp:562-568 | a name that holds avx512 is 512 bits wide, one that holds only avx2 is 256, any other 128 |
| FeatureStrings.TrimKeepsWidth | Support/lib/DeviceSpecs.cpp:562-577 | dropping leading plus signs does not change a feature's width |
| FeatureStrings.TrimExactly | Support/lib/DeviceSpecs.cpp:576-577 | trimming takes every leading plus sign and nothing else |
| FeatureStrings.WidestIsUnique | Support/lib/DeviceSpecs.cpp:562-590 | a list of features has one widest width |
| FeatureStrings.WidthsAgree | Support/lib/DeviceSpecs.cpp:570-590 | both width functions agree on a feature list and its encoding |
| Requirements.VersionsReadBack | Support/lib/DeviceSpecs.cpp:60-70 | every version below 2^64 is read back from its name, and a larger one leaves the name unversioned |
| Requirements.VersionedExactly | Support/lib/DeviceSpecs.cpp:60-70 | a name is versioned exactly when it is the family prefix and a decimal number that fits |
| Requirements.ParseFeatures | Support/lib/DeviceSpecs.cpp:296-311 | the loop computes the specified map |
| Requirements.ParseIsFirst | Support/lib/DeviceSpecs.cpp:296-311 | a base is in the map exactly when a feature that is not ignored names it, and then with the first one |
| Requirements.SatisfiesFeatures | Support/lib/DeviceSpecs.cpp:315-354 | whatever order the map is walked in, what is reported is not empty and says of each base exactly whether it is disabled, missing or too old, and then which name is provided |
| Requirements.FeaturesSatisfied | Support/lib/DeviceSpecs.cpp:315-354 | the check succeeds exactly when every required base is provided, not disabled and new enough |
| Requirements.ComplaintsExactly | Support/lib/DeviceSpecs.cpp:329-350 | which complaint each unmet base draws: disabled before missing before too old, the last with the provided name |
| Requirements.IgnoredExactly | Support/lib/DeviceSpecs.cpp:300-306 | a single requirement is met by a target without features exactly when it is one of the three ignored names |
| Requirements.IgnoredAlwaysMet | Support/lib/DeviceSpecs.cpp:300-306 | requirements made only of ignored names are met by every target |
| Requirements.ArchByVersion | Support/lib/DeviceSpecs.cpp:264-277 | a versioned architecture is satisfied exactly by the same or a newer version |
| Requirements.ArchExactly | Support/lib/DeviceSpecs.cpp:264-277 | a required architecture is met exactly by the same name, or within the versioned family by a version at least as high |
| Requirements.BareFamilyName | Support/lib/DeviceSpecs.cpp:56-70 | the bare family name counts as version zero on either side |
| Requirements.TriplesExactly | Support/lib/DeviceSpecs.cpp:214-261 | the architecture is wrong exactly when it differs, up to its alias, where the required triple fixes it; else the system is wrong exactly when it does; else the triples match |
| Requirements.CheckExactly | Support/lib/DeviceSpecs.cpp:356-372 | each of the six outcomes has its exact condition: the first of architecture, system, processor, features and ABI that is not met, or success |
| Requirements.CheckReports | Support/lib/DeviceSpecs.cpp:315-372 | when the whole check complains about features, its report is not empty and says of each base exactly whether it is disabled, missing or too old, and then which name is provided |
| Requirements.TriplesTransitive | Support/lib/DeviceSpecs.cpp:214-261 | triple matching is transitive across the architecture and system aliases and the empty triple |
| Requirements.ArchsTransitive | Support/lib/DeviceSpecs.cpp:264-277 | architecture matching by version is transitive |
| Requirements.FeaturesTransitive | Support/lib/DeviceSpecs.cpp:315-354 | feature matching is transitive, with the disabled features of the middle target included |
| Requirements.CheckTransitive | Support/lib/DeviceSpecs.cpp:356-372 | satisfying is transitive over all targets |
| Requirements.ReflexiveExactly | Support/lib/DeviceSpecs.cpp:356-372 | a target satisfies itself if and only if no parsed feature base is in the parsed disabled map |
| Requirements.SupersetsSufficeExactly | Support/lib/DeviceSpecs.cpp:313-354 | every selection of the provided features is satisfied if and only if none is disabled and each base lists its newest version first |
| Requirements.OlderFirstHidesNewer | Support/lib/DeviceSpecs.cpp:308-309 | a provided superset with the older version first does not satisfy the newer one |
| HashOrder.AtMostTotal | Support/lib/HashUtils.cpp:173-176 | any two hash strings are comparable |
| HashOrder.AtMostAntisymmetric | Support/lib/HashUtils.cpp:173-176 | strings that precede each other are equal |
| HashOrder.AtMostTransitive | Support/lib/HashUtils.cpp:173-176 | the order of hash strings is transitive |
| HashOrder.AtMostExactly | Support/lib/HashUtils.cpp:173-176 | one string precedes another exactly when it is a prefix of it or has the smaller character where they first differ |
| HashOrder.SortSorts | Support/lib/HashUtils.cpp:173-176 | sorting gives a sorted list of the same strings, each as often |
| HashOrder.SortedUnique | Support/lib/HashUtils.cpp:173-176 | there is one sorted list of given strings, whatever algorithm sorts |
| HashOrder.ConcatIs | Support/lib/HashUtils.cpp:178-179 | the strings are written one after the other in the order of the list, with nothing between |
| HashOrder.ConcatInjective | Support/lib/HashUtils.cpp:178-179 | strings of one positive length can be cut apart again |
| ModuleHash.HashCache.ComputeHash | Support/lib/HashUtils.cpp:130-137 | the hash is appended, or nothing on failure |
| ModuleHash.HashCache.Join | Support/lib/HashUtils.cpp:139-142 | the other cache's hashes are moved over and it is left empty |
| ModuleHash.Consolidate | Support/lib/HashUtils.cpp:156-160 | the first cache ends with all hashes, in worker order, and the others are empty |
| ModuleHash.ForEachSequentially | Support/include/Support/Compiler/Threading.h:44-50 | the sequential path succeeds exactly when no operation fails, and then holds every hash in order |
| ModuleHash.StepInv | Support/include/Support/Compiler/Threading.h:64-75 | every step of every worker keeps each claimed outcome accounted for exactly once |
| ModuleHash.RunInv | Support/include/Support/Compiler/Threading.h:64-81 | that invariant holds after every schedule |
| ModuleHash.JoinedIsConsolidated | Support/include/Support/Compiler/Threading.h:76-86 | joining the caches in worker order is what consolidation computes |
| ModuleHash.FinishedExact | Support/include/Support/Compiler/Threading.h:64-87 | a finished pool failed exactly when some operation fails, and otherwise holds every hash as often as it occurs |
| ModuleHash.FailureStops | Support/include/Support/Compiler/Threading.h:66-75 | once the failure flag is up, only workers that had already looked at it claim another operation |
| ModuleHash.StepProgress | Support/include/Support/Compiler/Threading.h:66-75 | every step of an unfinished worker uses up a bounded budget |
| ModuleHash.RunsEnd | Support/include/Support/Compiler/Threading.h:64-81 | no schedule keeps workers busy for more than four steps an operation and two a worker |
| ModuleHash.RunsFinish | Support/include/Support/Compiler/Threading.h:64-81 | every schedule has a continuation, within the budget that is left, after which the pool is finished |
| ModuleHash.ScheduleIndependent | Support/lib/HashUtils.cpp:147-181 | for every number of workers and every schedule the module hash, failure included, is the sequential one |
| ModuleHash.OrderIndependent | Support/lib/HashUtils.cpp:147-181 | the order of the operations does not change the hash |
| ModuleHash.DigestIs | Support/lib/HashUtils.cpp:176-180 | the digest is the hash of the strings written out in ascending order, whatever sorted them |
| ModuleHash.ModuleHashIs | Support/lib/HashUtils.cpp:147-181 | a module has no hash if an operation fails, and else the hash of the operations' hashes, each as often as it occurs, written out in ascending order |
| ModuleHash.DigestExact | Support/lib/HashUtils.cpp:173-180 | with hashes of one length and a collision-free hasher, digests agree exactly when the collections of hashes do |
| ModuleHash.Finish | Support/lib/HashUtils.cpp:176-180 | sorting and streaming the strings computes the hash of the ascending list of them written out |

## Left out

- Memory order: the logger and the worker pool take sequentially consistent steps; `size_t` positions and the 32-bit work counter do not wrap.
- Logger rendering: timestamps, colours, JSON and levels are not modelled; a rendered line is the record's metadata and its argument readings, written whole to each sink.
- A ring of capacity zero also passes the source's power-of-two assertion and indexes an empty array; the model's capacities are the positive powers of two.
- LogReach.FlushBegins: the early return of flush when there is no consumer thread to join, before start and after the join, is not modelled.
- Logger progress: the progress theorems count steps, not time; the 100 µs polling and the spin in flush are not modelled.
- The sum of the operands' widths is taken not to wrap in add, subtract, multiply and divide, which would need numbers of 2^31 bits or more; only the shift width, which a small operand can wrap, is cut to 32 bits. Shift amounts of 2^64 or more in magnitude, and shift widths that wrap to zero, are outside `Defined`.
- IpInt.RshiftExactly: leaves out numbers of more than 2^31 bits shifted by less than their width less one when the width wraps to below 32, because the wrapped bits may then agree with the exact ones by coincidence.
- The fixed-width integer library and the standard base64 coder are modelled from their documented behaviour (the latter from section 4 of RFC 4648), because their sources are not in the repository.
- IPRational: stream output and hashing are not modelled.
- DiagnosticCodec.RoundTrip: the location parser is assumed to undo the location printer, as the source assumes; lengths and counts are below 2^64.
- DiagnosticCodec.DecodeDiagnostics: offsets are mathematical; a stored size that makes the source's address sum wrap is refused by the model, while `BoundTestExactly` says what the source's test does with it.
- DiagnosticCodec.UnpackPack: the source does not check the footer it reads; `Unpack` is defined only on payloads whose footer is in range, and every packed payload is.
- Base64Url.EncodeUrlSafe: requires a non-empty input, because the source reads the last character of an empty string otherwise.
- File system effects: I/O errors, locks between processes, disk space, directory pruning, memory mapping and telemetry; a directory is a map from name to bytes, and two nodes never share a directory.
- BlobChain.ReadFileExact: a file of 1 to 15 bytes is reported as truncated, where the source's slice is undefined; 128-bit hashes are a parameter.
- BlobBackend.Backend.FindThenDelegate: asynchronous tasks run one after the other; interference between concurrent calls is not modelled.
- BlobRuns.CacheIsAMap: the filesystem node is last in the chain and writable, as `DirectoryAboveIsNotFilled` shows a filesystem node above another level is not filled.
- JoinMap.Build: starts from the parsed list of dies with distinct offsets; parsing the dump's text and reading the UUID are not modelled, attribute values hold no line breaks, and the digest is a parameter assumed collision-free only where stated.
- JoinMap.Validate: requires that a mapped offset's record exists, because the source raises an exception otherwise.
- Requirements.CheckTransitive: the triple parser is a parameter; it recognises both spellings of 64-bit ARM, does not recognise the empty name, and gives the empty text no architecture and no system.
- Requirements.SatisfiesFeatures: the wording of the error message, which follows hash-table order, is a map from base to complaint.
- ModuleHash.ScheduleIndependent: bytecode writing and both hash functions are parameters; each operation's outcome is fixed. Diagnostics emitted by workers are not modelled.
- Configuration files, URIs, statistics, benchmarks, CPU and binary identification, and documentation generators are outside the model.
