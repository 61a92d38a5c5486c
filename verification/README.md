# A verified model of the ZCash pool frontend

This project models the parts of a mining pool frontend where a slip is hard to see, and
proves what they are for. To verify, with Dafny 4.11:

    dafny verify dfyconfig.toml

**Equihash.** `IsValidSolution` unpacks a bit-packed list of 2^K indices, builds one row
for each and folds the rows pairwise in one byte buffer, a shrinking XOR prefix followed by
growing index bytes. `EquihashSpec` states what a solution is without any rows or buffers;
`EquihashVerifier` proves that the folding accepts exactly those, with N and K symbolic
(8 divides N, N at most 512, K + 1 divides N, K at least 3, N / (K + 1) from 8 to 24) and
BLAKE2b an arbitrary function. `BitPacking` and `Minimal` do the same for the bit packing
with its wrapping 32-bit accumulator, `EquihashRows` for the rows, `EquihashFacts` says
what the checks amount to, and `Duplicates` treats the greedy duplicate test.

**Numbers.** `Limbs` and `BaseUint` treat the in-place carry, borrow and shift loops over
32-bit limbs, `BigNum` the wrapper around OpenSSL numbers, `Compact` the lossy form of
targets, `Hex` the text routines.

**The pool.** `Pool` is a state machine. A step is a stretch of a handler between two calls
that yield, so new blocks, reconnects and the answers of the wallet can come between the
parts of a handler. `PoolContext` proves that the handlers take these steps, `PoolRuns`
what every run keeps, and `PoolAnswers` what a submission is answered after any run, in
terms of the events alone: a miner or worker that answers what it was sent is taken
exactly when it should be. An epoch is the time between two clears of the maps. `Header`
compares the header bytes the pool hashes with those a miner builds from a job.

**The Stratum session.** `Framing` is the receive loop over its buffer, `Window` the
sliding window of shares behind a worker's rate.

`Arithmetic`, `Bitwise` and `Digits` hold the arithmetic of shifts, masks and digit
strings that the others share: all values are unbounded integers, and every wrap-around
of the program is written out.

Where the program does not do what one would expect, the model follows it:

- A failed Equihash check on the ZMQ path sets the error of the reply and goes on
  (src/zcashpool.cpp:184-189), so such shares are credited.
- The compact size field has eight bits; sizes from 256 on wrap (src/bignum.h:327).
- `readHex` into a buffer ignores its size argument (src/stratum.cpp:44), so that the
  bytes fit is a precondition.
- A NUL byte in front of a newline stops the handling of lines (src/main.cpp:216).
- The window's interval count is cut to an unsigned (src/zcashpool.h:28).
- A block with a target of zero ends the process (src/main.cpp:329,458): the share target is
  divided by it.
- Looking up an unknown job inserts an empty task (src/zcashpool.cpp:317).
- The height is set when the program starts (src/main.cpp:644), so the tests whether there
  is one never fail and are not modelled.

## Model

| member | source | states |
|---|---|---|
| `BitPacking.ExpandArray` | src/equihash_original.cpp:70-111 | For every bit length from 8 to 25 and every padding, the output starts with the base-2^bit_len big-endian digits of the number the input bytes denote, each laid out in its padded width, although the accumulator wraps at 32 bits; nothing behind them is touched |
| `BitPacking.CompressArray` | src/equihash_original.cpp:113-150 | The output is the first out_len bytes of the bit stream formed by the elements read, each masked to its bit_len low bits, although the accumulator wraps |
| `BitPacking.CompressExpand` | src/equihash_original.cpp:70-150 | Compressing what expanding produced gives the byte string back whenever its bits are whole elements, with the lengths that both routines assert |
| `BitPacking.ExpandCompress` | src/equihash_original.cpp:70-150 | Expanding what compressing produced gives the padded elements back whenever they are below 2^bit_len and fill whole bytes |
| `BitPacking.ExpandInjective` | src/equihash_original.cpp:70-111 | Byte strings of one length with the same expansion are equal |
| `EquihashFacts.ExpandXor` | src/equihash_original.cpp:70-111 | For every padding, expanding the XOR of two byte strings gives the XOR of their expansions, so comparing expanded bytes compares collision segments of the hashes |
| `EquihashFacts.ValueOfXor` | src/equihash_original.cpp:243-244 | XORing two buffers byte by byte XORs the numbers they denote |
| `EquihashSpec.LeafBytes` | src/equihash_original.cpp:295-298 | The hash of an index is N/8 bytes long and lies inside the generator output it is cut from, for all admissible N and K |
| `EquihashFacts.LeavesFillOutput` | src/equihash_original.cpp:295-298 | The slices of the indices that share a generator output, one after another, are that output: no gap, no overlap, so every byte belongs to the hash of exactly one index |
| `EquihashFacts.WidthsExactly` | src/equihash_original.h:190-203 | For all admissible N and K an output holds as many N-bit hashes as fit into 512 bits and nothing else, K + 1 segments make up a hash, and the indices fill the bytes of a solution |
| `EquihashRows.EhIndexToArray` | src/equihash_original.cpp:154-158 | Stores the four big-endian bytes of the index and changes nothing else |
| `EquihashRows.IndexRoundTrip` | src/equihash_original.cpp:154-167 | Loading a stored index gives the index back |
| `EquihashRows.FullStepRow.FromHash` | src/equihash_original.cpp:216-235 | A fresh row holds the expanded hash and, at hLen, the four bytes of its index |
| `EquihashRows.FullStepRow.Merge` | src/equihash_original.cpp:238-252 | The merged row holds the XOR of the two prefixes without the trimmed bytes, then the index bytes of the lesser row, then those of the other |
| `EquihashRows.IndexBytesOrder` | src/equihash_original.h:128 | memcmp on concatenated big-endian indices is the lexicographic order on the index lists |
| `EquihashRows.XorLayout` | src/equihash_original.cpp:243-244 | XORing two lists laid out in bytes, padded or not, gives the layout of the element-wise XOR |
| `Minimal.GetIndicesFromMinimal` | src/equihash_original.cpp:181-195 | Unpacks exactly the (cBitLen+1)-bit digits of the byte string, in order |
| `Minimal.GetMinimalFromIndices` | src/equihash_original.cpp:197-213 | Returns the packed form of the index list |
| `Minimal.PackUnpack` | src/equihash_original.cpp:181-213 | Packing the unpacked indices of a byte string gives the bytes back when they hold whole indices |
| `Minimal.UnpackPack` | src/equihash_original.cpp:181-213 | Unpacking packed indices gives them back when each fits its bits and together they fill whole bytes |
| `EquihashVerifier.HasCollision` | src/equihash_original.cpp:274-282 | True exactly when the first l bytes of the rows agree |
| `EquihashVerifier.IsZero` | src/equihash_original.cpp:262-270 | True exactly when the first len bytes are zero |
| `EquihashVerifier.DistinctIndices` | src/equihash.tcc:11-21 | True exactly when the index lists the two rows carry share no index |
| `EquihashVerifier.CollisionIsLeadingZeros` | src/equihash_original.cpp:274-282 | Two prefixes agree in their first segment exactly when the XOR of the values they hold has that segment zero |
| `EquihashVerifier.RowFits` | src/equihash_original.h:198-200 | After every number of rounds a row fits FinalFullWidth, so no write passes the buffer and neither assertion of the merge fires |
| `EquihashVerifier.MergedRow` | src/equihash_original.cpp:238-252 | Merging the rows of two accepted siblings yields the row of their parent: the XOR of its leaves from the next segment on, then its leaves in order |
| `EquihashVerifier.PairOk` | src/equihash_original.cpp:306-314 | The collision, order and distinctness tests on two sibling rows pass exactly when the node above satisfies the three conditions of the design |
| `EquihashVerifier.FoldRound` | src/equihash_original.cpp:304-316 | One round ends with a row for every node of the next level, in order, or finds a node that fails |
| `EquihashVerifier.FoldRows` | src/equihash_original.cpp:301-323 | The rounds and the final test accept exactly when all nodes pass and the total XOR is zero |
| `EquihashVerifier.LastLevel` | src/equihash_original.cpp:303-323 | The loop ends after exactly K rounds with one row, whose zero test tells whether the XOR of all leaves is zero |
| `EquihashVerifier.SolutionIffNodesOk` | src/equihash_original.cpp:301-323 | The declarative predicate (all indices distinct, halves ordered, leading segments zero, total XOR zero) holds exactly when every sibling pair passes its three tests and the total XOR is zero |
| `EquihashVerifier.IsValidSolution` | src/equihash_original.cpp:285-324 | Accepts exactly the byte strings of SolutionWidth bytes whose unpacked indices are an Equihash solution, for every hash function and all admissible N and K |
| `EquihashSpec.BlockXorConcat` | src/equihash_original.cpp:243-244 | The XOR of the leaves of two adjoining blocks is the XOR of the blocks' XORs |
| `EquihashSpec.SiblingsImplyDistinct` | src/equihash_original.cpp:312-314 | If siblings share no index at any node, all indices are pairwise distinct |
| `EquihashSpec.DistinctImpliesSiblings` | src/equihash_original.cpp:312-314 | If all indices are distinct, no siblings share one |
| `EquihashFacts.FirstIndicesDecide` | src/equihash_original.cpp:309-314 | Between blocks without a common index the order test comes down to their first indices |
| `EquihashFacts.OrderIsFirstLeast` | src/equihash_original.cpp:309-311 | Among distinct indices the order tests of all rounds pass exactly when every aligned block starts with its least index |
| `EquihashFacts.NoSwappedSolution` | src/equihash_original.cpp:309-311 | Exchanging the halves of any block of a solution gives no solution |
| `EquihashFacts.OneEncoding` | src/equihash_original.cpp:287-295 | No two byte strings of the right size unpack to the same index list |
| `Duplicates.IsProbablyDuplicate` | src/equihash.tcc:24-43 | True exactly when every value occurs an even number of times, although pairs are formed greedily and the first of a pair is never marked |
| `Hex.HexStr` | src/equihash_original.h:37-53 | Writes two lower-case digits a byte, with a space between bytes if asked for |
| `Hex.HexTextDecodes` | src/equihash_original.h:37-53 | Without spaces readHex turns the text of HexStr back into the bytes |
| `Hex.SpacedPlaces` | src/equihash_original.h:37-53 | With spaces the two digits of byte k stand at 3k and every third character is a space |
| `Hex.DigitTables` | src/equihash_original.h:37-53 | The digits are 0 to 9 and a to f, in capitals for dumps |
| `Hex.ReadHexBuffer` | src/stratum.cpp:44-73 | Succeeds exactly on an even number of hex digits up to the NUL, and has written the bytes of the digit pairs in front of the first other character; the size argument plays no part |
| `Hex.ReadHexVector` | src/stratum.cpp:75-104 | The same, into a vector |
| `Hex.StratumLittleEndianHex` | src/stratum.cpp:174-182 | Writes the digit pairs in reverse order and a NUL, and nothing else |
| `Hex.StratumDumpHex` | src/stratum.h:58-71 | Writes the upper-case digits of the bytes of the value from the lowest byte on, and a NUL |
| `Hex.DecodeSwapped` | src/stratum.cpp:174-182 | Decoding the byte-reversed hex digits of a number gives its little-endian memory image |
| `Hex.DecodeDumped` | src/stratum.h:58-71 | Decoding the dump of a value gives its little-endian memory image |
| `BaseUint.BaseUint.AddAssign` | src/uint256.h:148-158 | Addition modulo 2^BITS, also of a number to itself |
| `BaseUint.BaseUint.Negate` | src/uint256.h:50-57 | The value that adds up to zero modulo 2^BITS |
| `BaseUint.BaseUint.SubAssign` | src/uint256.h:160-164 | Subtraction modulo 2^BITS |
| `BaseUint.AddThenSubtract` | src/uint256.h:148-164 | Subtracting a number undoes adding it |
| `BaseUint.BaseUint.Increment` | src/uint256.h:183-190 | Adds one modulo 2^BITS, with the carry rippling as far as it has to |
| `BaseUint.BaseUint.Decrement` | src/uint256.h:200-207 | Subtracts one modulo 2^BITS |
| `BaseUint.BaseUint.Less` | src/uint256.h:218-228 | Agrees with the order of the values |
| `BaseUint.BaseUint.LessOrEqual` | src/uint256.h:230-240 | Agrees with the order of the values |
| `BaseUint.BaseUint.Greater` | src/uint256.h:242-252 | Agrees with the order of the values |
| `BaseUint.BaseUint.GreaterOrEqual` | src/uint256.h:254-264 | Agrees with the order of the values |
| `BaseUint.BaseUint.Equal` | src/uint256.h:266-272 | Agrees with equality of the values |
| `BaseUint.BaseUint.NotEqual` | src/uint256.h:286-289 | Agrees with inequality of the values |
| `BaseUint.BaseUint.ShlAssign` | src/uint256.h:114-129 | Multiplication by 2^s modulo 2^BITS for every s, multiples of 32 and amounts past the width included |
| `BaseUint.BaseUint.ShrAssign` | src/uint256.h:131-146 | Floor division by 2^s for every s |
| `BaseUint.BaseUint.AssignWord` | src/uint256.h:70-77 | The value becomes the 64-bit word |
| `BaseUint.BaseUint.GetHex` | src/uint256.h:298-304 | All digits of the value, most significant first |
| `BaseUint.BaseUint.SetHex` | src/uint256.h:306-336 | The value of the run of hex digits behind spaces and a prefix, modulo 2^BITS, whatever the number of digits |
| `Hex.HexBodyReads` | src/uint256.h:306-336 | Behind any white space and an optional 0x or 0X, SetHex reads exactly the digits up to the first other character |
| `BaseUint.HexRoundTrip` | src/uint256.h:298-336 | SetHex reads back what GetHex printed |
| `Compact.GetCompact256` | src/uint256.h:594-614 | Packs the 24 top bits of the 256, or 16 of them and a larger size when the top bit is set; neither assertion fires |
| `Compact.Compact256RoundsDown` | src/uint256.h:594-614 | Decoding it gives the number rounded down to a multiple of 2^232 below 2^255 and of 2^240 from there on |
| `Compact.HashTargetFromBits` | src/main.cpp:68-80 | The target of the compact word modulo 2^256 |
| `Compact.BlockTargetFromBits` | src/main.cpp:449-456 | The target of the compact word |
| `Compact.TargetVanishes` | src/main.cpp:320-329 | The words of target zero, on which the new-block handlers end in a division by zero, are exactly those without mantissa bits or whose mantissa bits are all shifted out by a size below 3 |
| `Compact.DecodersAgree` | src/main.cpp:68-80 | The two decoders agree exactly when the target is below 2^256, as it is for every exponent up to 32 |
| `BigNum.SetCompactAgrees` | src/bignum.h:289-306 | For every compact word, SetCompact agrees with the uint256 decoder if and only if the target is below 2^256 and the number is not negative; for exponents up to 32 the target always is below |
| `Compact.EncodeMeans` | src/bignum.h:308-330 | The mantissa and size that GetCompact computes denote the number without its low bytes, and the size counts a sign bit |
| `BigNum.CBigNum.SetCompact` | src/bignum.h:289-306 | The signed number a compact word denotes |
| `BigNum.CBigNum.GetCompact` | src/bignum.h:308-330 | The word holds the mantissa, the size modulo 256 and the sign |
| `BigNum.RecodedExactly` | src/bignum.h:289-330 | SetCompact of GetCompact gives the number back, rounded towards zero, if and only if its size is at most 255; larger sizes wrap |
| `BigNum.RecodedLosesLittle` | src/bignum.h:289-330 | For non-negative numbers whose size fits, the result is at most the number, loses less than one part in 2^15, keeps the order of numbers and encodes to the same word |
| `BigNum.WriteByte` | src/bignum.h:146-161 | One turn of the byte loops keeps the buffer equal to the minimal payload of what has been seen of the number and within its bound |
| `BigNum.CBigNum.SetInt64` | src/bignum.h:125-168 | The object becomes exactly the argument, the least int64 included, inside the 14-byte buffer |
| `BigNum.CBigNum.SetUint64` | src/bignum.h:170-195 | The object becomes exactly the argument |
| `BigNum.CBigNum.SetUint256` | src/bignum.h:197-223 | The object becomes the value of the 256-bit number, inside the 38-byte buffer |
| `BigNum.CBigNum.GetUint256` | src/bignum.h:225-238 | The magnitude modulo 2^256 |
| `BigNum.PayloadRoundTrip` | src/bignum.h:145-167 | Reading back the minimal sign-magnitude payload gives the signed number |
| `BigNum.CBigNum.SetHex` | src/bignum.h:332-360 | The signed value of the hex digits behind spaces, sign, prefix and spaces |
| `BigNum.CBigNum.ToString` | src/bignum.h:362-386 | The text of the magnitude in the base, behind a minus sign for negative numbers |
| `BigNum.BaseTextDenotes` | src/bignum.h:362-386 | In every base from 2 to 16 that text consists of digits of the base that denote the magnitude, the first of them not 0 |
| `BigNum.HexTextRoundTrip` | src/bignum.h:332-391 | SetHex reads back what GetHex printed, for every signed number |
| `BigNum.NumberBodyReads` | src/bignum.h:332-360 | Behind white space, an optional minus sign, an optional prefix and, if one of the two is there, more white space, SetHex reads exactly the digits, and the sign |
| `Window.StratumWorker.constructor` | src/zcashpool.h:48-52 | All counters start at zero |
| `Window.StratumWorker.Move` | src/zcashpool.h:30-33 | The in-place loops prepend k zeros to the counters and cut them off at nine |
| `Window.MoveCounts` | src/zcashpool.h:29-36 | That move puts every share k buckets on: the counters are the bucket sizes of the moved history |
| `Window.StratumWorker.Shift` | src/zcashpool.h:25-40 | Nothing happens within 60 seconds of the last shift; otherwise the whole intervals since then are counted, everything moves on by them and the period restarts now |
| `Window.ShiftKeepsAges` | src/zcashpool.h:25-40 | A shift keeps the age bounds of every history (bucket 0: pushed since the last shift; bucket j: between 60(j-1) and 120j seconds, exclusive; dropped: more than 480) exactly when the interval count is not cut down to a small unsigned |
| `Window.StratumWorker.PushShare` | src/zcashpool.h:54-57 | One more share, in bucket 0, after the shift, whatever the clock says; every earlier share keeps its place in the shifted history |
| `Window.PushKeepsAges` | src/zcashpool.h:54-57 | Pushing a share keeps the age bounds of every history exactly when the clock has not gone back behind the last shift and the interval count is not cut down |
| `Window.RunKeepsAges` | src/zcashpool.h:25-57 | Over a whole run of pushes on a new worker the age bounds hold after every push if and only if no push finds the clock behind the last shift, or, the first push apart, an interval count that is cut down |
| `Window.OrderedRun` | src/zcashpool.h:25-57 | For every nondecreasing sequence of clock readings less than 2^32 intervals from the start the age bounds hold after every push, and the buckets counted hold every share aged up to 480 seconds and none aged 960 or younger than the last shift |
| `Window.WindowContents` | src/zcashpool.h:59-64 | The buckets counted are exactly a set that holds every share aged up to 480 seconds and none aged 960 or younger than the last shift |
| `Window.StratumWorker.UpdateStats` | src/zcashpool.h:59-64 | The rate counts the buckets 1 to 8; while the age bounds hold it lies between the rates of the shares of the last 480 and of the last 960 seconds before the last shift |
| `Framing.StratumReader.Read` | src/main.cpp:213-266 | One turn of the loop on its buffer: store, find a line in front of any NUL, handle at most one, move the rest down, stop the session on a JSON error |
| `Framing.StratumReader.MoveDown` | src/main.cpp:258-265 | The forward copy of overlapping bytes leaves what was behind the line at the front |
| `Framing.NothingLost` | src/main.cpp:213-266 | After every run the handled lines, each with a newline, followed by the buffer are the bytes received, and the buffer holds fewer than 40960 |
| `Framing.HandledAreFirstLines` | src/main.cpp:213-266 | The handled lines are the first lines of the stream, in order |
| `Framing.OneLinePerRead` | src/main.cpp:213-266 | In every run a read handles one more of the lines in front of the first one that holds a NUL, if there is one; it raises the count to the lesser of one more and the number complete if and only if no line is left or the next one holds no NUL |
| `Framing.HandledInClosedForm` | src/main.cpp:213-266 | The number handled is the least, over all m, of the lines complete after m reads in front of the first one with a NUL, plus the reads since |
| `Framing.NulStops` | src/main.cpp:216-218 | A NUL in front of the next newline ends the handling of lines for good |
| `Framing.HandledLinesExactly` | src/main.cpp:212-218 | Some run handles a given line if and only if it has at most 40958 bytes and holds neither a newline nor a NUL |
| `Framing.ErrorEndsSession` | src/main.cpp:213-256 | The session is active if and only if no handled line was a JSON error; only the last can have been one, and nothing is read after it |
| `Header.SetHash` | src/zcashpool.cpp:152-158 | The value of a hex string as uint256 holds it |
| `Header.WireAgreement` | src/zcashpool.cpp:532-534 | For 64 hex digits, decoding what stratumLittleEndianHex sends gives the memory image of what SetHex parses |
| `Header.WireAgreesExactly` | src/zcashpool.cpp:532-534 | Among strings of even length without NUL exactly those of 64 hex digits do so |
| `Header.HeaderAgreement` | src/zcashpool.cpp:332-338 | The version, previous hash, merkle root, reserved, time and bits bytes that are hashed are the decoded fields of the notification |
| `Header.DataDeterminesFields` | src/zcashpool.cpp:332-338 | Two headers whose fields fit their types have the same bytes exactly when they have the same fields |
| `Header.SolutionAsSent` | src/zcashpool.cpp:344-355 | For every solution of at least three bytes, the pool hashes it as it was sent exactly when those three are its compact size |
| `Header.CompactSizeReadsBack` | src/zcashpool.cpp:13-31 | A reader of compact sizes gets every size below 2^32 back from its bytes, whatever follows them, and they are the shortest form |
| `PoolContext.Context.NewBlockArrived` | src/main.cpp:436-464 | Clears both work maps and the share set, takes the block's height, hash and target; the process goes on, with the whole number of times the block's target goes into the share target, if and only if that target is not zero; timerProc does the same on a reconnect (src/main.cpp:306-334) |
| `PoolContext.Context.Disconnected` | src/main.cpp:340-342 | Only the height changes, to 0 |
| `PoolContext.Context.OnGetWork` | src/zcashpool.cpp:91-109 | The answered template enters the work map, and the reply carries its fields, the later of its time and the clock, and the height as it is after the yield; without a template the miner is disconnected |
| `PoolContext.Context.StratumSendNewWork` | src/zcashpool.cpp:520-557 | A job is sent and recorded, with fields from the block hash as it is after the yield, unless there is no template, block hash or merkle root; of a string with an odd number of characters the last one sent may be any character or missing |
| `PoolContext.PrintedExactly` | src/zcashpool.cpp:531-546 | With strings of even length the message is exactly the one the state machine gives |
| `PoolContext.Context.OnShare` | src/zcashpool.cpp:111-255 | Takes the step of the machine for a ZMQ share: the same checks in the same order, a failed Equihash check only setting the error, and the same request to the wallet for a block |
| `PoolContext.Context.OnStratumSubmit` | src/zcashpool.cpp:298-400 | Takes the step for a Stratum share, the empty task that a failed lookup inserts and the request to the wallet included |
| `PoolContext.Context.ProofOfWorkAnswered` | src/zcashpool.cpp:218-248 | The rest of either handler after the yield, on the state as it is by then |
| `PoolContext.EquiHashShareCheck` | src/zcashpool.cpp:33-41 | Accepts exactly the Equihash solutions for the header and nonce; the program uses (200,9), the model any admissible instance |
| `PoolRuns.Eh200_9Widths` | src/equihash_original.h:190-203 | (200,9) is admissible, its solutions have 1344 bytes, sent behind FD 40 05, and an output of 50 bytes holds two hashes |
| `PoolRuns.StepAccounted` | src/zcashpool.cpp:192-254 | Every step of either protocol, new block, disconnect and answer keeps the accounts: shares waiting or credited are apart from each other and sound, and those of the current epoch are in uniqueShares |
| `PoolRuns.CreditsAreSafe` | src/zcashpool.cpp:192-254 | In every run each hash is sent to the backend at most once per epoch over both protocols, is the hash of its header, meets the share target, and on the Stratum path its proof is valid when proofs are checked |
| `PoolRuns.InvalidProofCreditedExactly` | src/zcashpool.cpp:114-206 | In every state a ZMQ share with an invalid proof is credited at once if and only if its fields are present, its height is current, its merkle root known, its hash the one it names, within the target and new, it is no block and the backend takes the message, whether proofs are checked or not; a block waits for the wallet under the same tests |
| `PoolRuns.InvalidBlockCreditedExactly` | src/zcashpool.cpp:218-248 | A waiting block with an invalid proof is credited if and only if the wallet accepts it and the backend takes the message |
| `PoolRuns.CheckDoesNotMatter` | src/zcashpool.cpp:184-189 | In every run without Stratum submissions the state is the one of the run with the check switched off, but for the marks on shares: the check has no effect on what ZMQ shares are credited, when and for how much |
| `PoolRuns.InvalidProofCredited` | src/zcashpool.cpp:184-189 | For every hash function, generator, share target and block target from 1 to 2^256 - 1, and for every ZMQ header and proof whose hash meets the share target, however invalid the proof, a run that starts with a block of that target and credits exactly that share |
| `PoolRuns.RepliesTellCredits` | src/zcashpool.cpp:223-254 | A step sends one message if and only if it accepts a share that is no block, or the wallet accepts the block of a waiting handler, and the backend takes it; a reply without error means a message, a message means a reply without error or, for a share marked invalid, the reply Invalid |
| `PoolRuns.SharesConserved` | src/zcashpool.cpp:202-254 | After every run the number of shares accepted is that of the shares credited, waiting for the wallet and lost with an error, over both protocols |
| `PoolRuns.WorkIsFresh` | src/zcashpool.cpp:99 | Every extraNonceMap entry comes from the latest work answered for its merkle root, since the last clear, with its extra nonce truncated to 32 bits; the block hash has not changed since |
| `PoolRuns.TaskIsFresh` | src/zcashpool.cpp:550-554 | Every non-empty stratumTaskMap entry holds the latest job sent for its number since the last clear, despite insertion on lookup, and the block hash has not changed since |
| `PoolRuns.EveryShareWasTaken` | src/zcashpool.cpp:202-254 | A share that waits for the wallet or was credited was accepted by the checks of some earlier submission |
| `PoolRuns.CreditsAnswerFreshWork` | src/zcashpool.cpp:134-140 | Every credit can be traced to its submission and to the work it answers, handed out before it with no clear in between, in the epoch in which its hash entered uniqueShares |
| `PoolRuns.DuplicatesExactly` | src/zcashpool.cpp:202-206 | uniqueShares holds exactly the hashes of the shares taken since the last clear, so a share is refused as a duplicate exactly then, over both protocols |
| `PoolRuns.LatestBlock` | src/main.cpp:439-456 | The block hash and target are those of the latest new block or reconnect, whatever else happened since |
| `PoolRuns.BlocksGoToTheWallet` | src/zcashpool.cpp:382-390 | A taken Stratum share builds on the latest block and goes to the wallet exactly when it meets that block's target |
| `PoolRuns.CreditHistory` | src/zcashpool.cpp:236-248 | Every credit: its share was taken and its message sent, at once or, for a block, by a later step on which the wallet accepted it with the coins the message carries; the message names the height above the one at which the share was taken if and only if the height is still the same when it is sent |
| `PoolRuns.RepliesTellProofs` | src/zcashpool.cpp:184-189 | What the miner is told: when proofs are checked, the step that sends the message of a credited share replies without error if and only if the share's proof is valid, and Invalid if and only if it is not; when they are not checked it always replies without error |
| `PoolRuns.WorkerAndPoolAgreeExactly` | src/zcashpool.cpp:152-158 | The header hashed for a taken ZMQ share is the one of the latest work for its merkle root if and only if the reserved field of that work is zero and the share names the work's bits |
| `PoolRuns.MinerAndPoolAgree` | src/zcashpool.cpp:332-342 | For 64-digit hashes, the 140 bytes hashed for a taken Stratum share are the decoded fields of the latest mining.notify sent for its job since the last clear, four zero bytes and the nonce of the miner, and that message carries the number of the job |
| `PoolAnswers.CurrentBlockExactly` | src/main.cpp:304-342 | After every run the hash and block target are those of the latest block, and the height is, unless the wallet has been lost since: then it is 0 |
| `PoolAnswers.KnownWorkExactly` | src/zcashpool.cpp:99 | A merkle root is known if and only if work with it was handed out since the last clear |
| `PoolAnswers.LatestJobIsKnown` | src/zcashpool.cpp:550-554 | The latest job sent for a number since the last clear is in the task map with its fields, whatever else happened, and the block hash is still the one it was sent with |
| `PoolAnswers.KnownJobExactly` | src/zcashpool.cpp:316-320 | A number finds a task if and only if a job was sent for it since the last clear |
| `PoolAnswers.JobsSentExactly` | src/zcashpool.cpp:525-527 | A job is sent if and only if the template has a merkle root and the latest block, if there has been one, a hash |
| `PoolAnswers.ProofIsForHashedBytes` | src/zcashpool.cpp:33-41 | A proof is judged on the first 140 bytes that the hash of its share covers: the header and the whole nonce |
| `PoolAnswers.StratumReplies` | src/zcashpool.cpp:310-326 | After every run a submission is refused for its job name, as unknown work or as too short if and only if it has no number, no job was sent for the number since the last clear, or its solution has fewer than four bytes |
| `PoolAnswers.StratumVerdict` | src/zcashpool.cpp:328-382 | After every run the verdict on a submission to a job that is out, from the bytes of the job, the latest block and the submission: refused for its proof, its hash or as taken since the last block, in this order, and accepted otherwise |
| `PoolAnswers.AnsweredJobIsTaken` | src/zcashpool.cpp:298-400 | A miner that answers the latest message of a job, with the number and the decoded fields of that message, its time, nonce and solution: the share is taken if and only if the solution is one for these 140 bytes (when proofs are checked), the hash of all bytes is within the share target and was not taken since the last block; it waits for the wallet exactly if the hash is within the block target, is credited at once otherwise, and each refusal has its own reason |
| `PoolAnswers.ZmqReplies` | src/zcashpool.cpp:111-255 | After every run and for every ZMQ share the reply and what becomes of the share, from the latest block, the work that is out and the hashes taken since the last block |
| `PoolAnswers.DisconnectsExactly` | src/zcashpool.cpp:128-140 | A submission is answered with a disconnect if and only if it is a complete ZMQ share for the current height whose merkle root is not that of work handed out since the last clear |
| `PoolAnswers.AnsweredWorkIsTaken` | src/zcashpool.cpp:111-255 | A worker that answers its work on the same block, with the height, merkle root and bits of the work: the share is taken if and only if the hash of its bytes is within the share target and was not taken since the last block; the proof for the N and K of the work only decides the error; the reserved field of the work has to be zero |
| `PoolAnswers.LaterTime` | src/zcashpool.cpp:104 | While both fit 32 bits, the time handed out is the later of the clock and the time of the template |
| `PoolAnswers.MessageFields` | src/zcashpool.cpp:531-546 | A message names the height above the current one, decodes to the time handed out, and carries the number under which its job is recorded |
| `PoolAnswers.WalletReplies` | src/zcashpool.cpp:218-254 | After every run the answer of the wallet is for the handler it resumes, and exactly when its reply is a failed check, stale, invalid or without error; a block of a miner is never called invalid |
| `PoolAnswers.RequestsExactly` | src/zcashpool.cpp:210-217 | The wallet is sent a request in exactly the steps that make a handler wait |
| `PoolAnswers.WalletGetsTheShare` | src/zcashpool.cpp:382-390 | The request names the current height and the extra nonce of the work that the share answers, and the wallet reads from it the time, the nonce and the solution that were hashed |
| `PoolAnswers.NonceReadsBack` | src/zcashpool.cpp:388 | SetHex turns the text of a nonce back into its 32 bytes |

## Left out

- Sockets, coroutines, ZMQ, protobuf and flatbuffers encoding, configuration, logging and signals: only their yield points and the state changes around them are modelled.
- BLAKE2b, with its personalization and the index behind the header, and SHA-256 are arbitrary functions; OpenSSL and GMP numbers are integers, and the MPI byte format is defined directly.
- JSON decoding: the model starts from a decoded message, in which the job id already holds the number behind its '#'. The number parser `xatoi` is not part of this model, nor is the text of a job id.
- The worker table (wallets, sockets, last update times) and the calls of pushShare and stratumSendStats on it; the window itself is modelled for one worker.
- The broadcast of a new block to the ZMQ subscribers, the previous hash and the difficulty for display.
- The payout address, the worker name and the text of the hash in a message to the backend.
- `difficultyFromBits` and `getdouble`: floating point for display.
- The Equihash solvers and truncated rows: declared but not implemented in the program.
- The 64-bit form of `writeCompactSize`: above 2^32 - 1 it returns 0, so no size bytes are hashed.
- PoolContext.Context.NewBlockArrived: the block target is an unbounded integer, because the export of a target of more than 256 bits into the fixed buffer is undefined. A block with a target of zero ends the process in a division (src/main.cpp:329,458), so no run has one; the quotient itself only goes into the log.
- PoolContext.Context.StratumSendNewWork: asks for strings that fit the buffers of 128 characters the program formats them in.
- Minimal.GetIndicesFromMinimal: asks for whole indices, because the program would read past its buffer otherwise; solutions of the right size always have them.
- The state of the buffer between the write of a NUL over a newline and the move is not visible outside Framing.StratumReader.Read, because the handlers get a copy of the line.
- uint160, the binary operators and the bitwise operators of uint256: the same code with another width, or single lines.
