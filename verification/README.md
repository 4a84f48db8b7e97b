# Sumokoin in Dafny

A model of the parts of Sumokoin in which a small change of the code breaks a large promise: the
ring signature and its proofs, the block store, the thread pool, the random-math code generator,
the heavy-hash loops, the streaming BLAKE-256, and the codecs and index arithmetic around them.
Each part is a state machine, a class or a set of functions with the branches, constants and error
returns of the source, and each has theorems over all its inputs, all its runs or all its reachable
states. `dafny verify dfyconfig.toml` checks everything.

| files | part |
|---|---|
| Wrappers, Arith, Numerals | optional values, bytes, products, remainders, bits, powers of two and positional numerals that several parts need |
| CurveGroup, SmallCurve, RingSignature, TxProof | signature algebra over any group that meets the laws of the curve |
| StoreTables, StoreUndo, StoreRuns, StoreConsistency, StoreAccepts, BlockchainDB | the store's tables as values, what undoes what, all runs, what the tables hold, which blocks are taken, and the class that updates them in place |
| ThreadPool | the pool as a step system, one step for each section under the mutex |
| RandomMath, Jit, Schedule, RandomProgram | interpreter, code generator, the processor that programs are scheduled for, and program generator of CryptonightR |
| HeavyHash | the hardware and the software loop, and the 32-bit product |
| BlakeSpec, Blake256 | the fold over padded blocks, the streaming state, HMAC |
| Varint, Base58, Address, Utf8 | codecs |
| Pruning, Permutation, Combinator | pruning stripes, in-place permutation, combinations |

What is a parameter. The curve is a value of operations with the laws `Lawful`; it is not assumed
to have prime order, and `SmallCurve.LawsCanBeMet` gives a group that meets the laws and has
torsion. Hashes to scalars and points, keccak, the BLAKE compression, the AES round, the signed
quotient of the heavy hash and the machine-code templates are arbitrary functions. Randomness and
the results of the page-protection calls are arguments. Integers are unbounded except where the
source's width matters, and there the wrap is written out. Disjoint bit fields are joined by
addition, and shifts and masks are written as quotients and remainders.

## Results that are not plain yes

Some promises hold only under a condition. Each of these has an if-and-only-if and a failing input.

- A transaction proof of either version about honest keys is accepted under every hash exactly when
  the view and spend keys have no torsion part (`TxProof.TxProofAcceptedIff`): the response is reduced
  modulo the order of the base point.
- `wait()` returns only when every task submitted through the waiter has ended, except for tasks that
  `submit()` runs itself: these are not counted by the waiter. All have ended exactly when every
  `submit()` through the waiter has returned (`ThreadPool.WaitReturnsAfterAllIff`). In
  `ThreadPool.WaitInsideInline` a task run by `submit()` waits on its own waiter, and the wait returns
  true at once.
- Popping a block undoes adding it, and removing a transaction undoes adding it, exactly when adding
  and removing look outputs up under the same amounts (`StoreUndo.PopUndoesAddIff`,
  `StoreUndo.RemoveUndoesAddIff`). They do unless a version 2 transaction has a coinbase input among
  several inputs, and an amount other than 0 (`StoreUndo.AmountsAgreeIff`,
  `StoreUndo.TwoCoinbaseInputs`): adding asks for any coinbase input, removing for a single one.
- Updates of BLAKE-256 append their data exactly when every empty one comes where the buffer is empty
  (`BlakeSpec.UpdateAppendsIff`, `BlakeSpec.StreamedFollowsIff`); otherwise an empty update drops what
  is buffered (`BlakeSpec.ByteDropped`).
- A generated routine computes what the interpreter computes for an instruction exactly when the
  instruction is `Faithful` (`Jit.SingleIffFaithful`): additions, subtractions and exclusive ors whose
  source is their destination, and multiplications and rotations by register 8, are compiled to
  something else. The program generator never emits these (`RandomProgram.Pass`, `RandomProgram.Init`).
- In the programs that the generator schedules, a rotation starts after an earlier one has finished
  exactly when no unit is idle before, from the cycle on that its operands and its number allow
  (`Schedule.RotationWaitsIff`); otherwise the two overlap (`Schedule.RotationsOverlap`).
- Encoding what an accepted address decodes to gives the address back exactly when its payload has a
  byte without continuation flag (`Address.EncodeAddrDecodedIff`, `Address.UnendedTag`).
- `get_next_unpruned_block_height` returns the least unpruned height on all heights within its guard
  exactly for seed 0 and the seeds with at least two stripes whose stripe is one of them, as
  `make_pruning_seed` makes them (`Pruning.NextUnprunedLeastIff`; `Pruning.BadSeedWitness` gives a
  height for each other seed).
- The last 5500 blocks of a chain are taken for its tip exactly below the heights at which the 64-bit
  sum in the test wraps (`Pruning.TipIff`).
- `combinations_count` is right exactly when no product exceeds 64 bits
  (`Combinations.CombinationsCount`, `Combinations.OverflowExample`).
- Canonicalisation without a transform leaves a text alone exactly when it is well formed, where
  surrogates count as well formed (`Utf8.UnchangedIffWellFormed`, `Utf8.OverlongShortened`).

Where a comment and the code differ, the code is modelled: `decode_block` says that `order` never
overflows, but for a full block its last, unused, product wraps; the proof shows that the value is
not used. `combinations_count` has no overflow check, though its callers may pass any counts. The
program generator says that a rotation can only start when the previous one has finished; the test is
that rotation number k start in cycle 2k or later.

## Model

| member | source | states |
|---|---|---|
| RingSignature.CheckRingSignature | src/crypto/crypto.cpp:706-746 | the loop returns true exactly when the signature is acceptable, which RingAcceptsIff spells out |
| RingSignature.RingAcceptsIff | src/crypto/crypto.cpp:706-746 | a signature is acceptable if and only if keys and image decode, all scalars are below the order, and the challenges sum to the hash of the one buffer that has the message in its first 32 bytes and c*P + r*G and r*H(P) + c*I of member i in the two places of pair i |
| RingSignature.FlattenIsLaidOut | src/crypto/crypto.cpp:627-638 | the hashed buffer byte by byte: the message, then 64 bytes for each member, in order |
| RingSignature.FlattenInjective | src/crypto/crypto.cpp:627-638 | different messages or different commitments are hashed differently |
| RingSignature.AcceptsIffSumIsHash | src/crypto/crypto.cpp:735-746 | for any buffer of recomputed commitments, acceptance is the equation between challenge sum and hash |
| RingSignature.GenerateRingSignature | src/crypto/crypto.cpp:640-704 | for every ring, signer, prefix and randomness, the signature written is accepted; it fails exactly when a key does not decode |
| RingSignature.SignatureAccepted | src/crypto/crypto.cpp:671-704 | prover and verifier build the same commitments, and the signer's challenge completes the sum |
| RingSignature.SpecialSoundness | src/crypto/crypto.cpp:706-746 | two answers to different challenges for the same commitments single out a member whose key and image satisfy the two linear relations |
| RingSignature.ExtractKey | src/crypto/crypto.cpp:616-623 | in the prime-order subgroup the relation yields the member's secret key, and the image is that member's key image |
| RingSignature.TwoAnswersRevealSigner | src/crypto/crypto.cpp:706-746 | two answers to one commitment reveal the secret key of the member whose key image was used |
| SmallCurve.LawsCanBeMet | src/crypto/crypto.cpp:606-623 | the laws assumed of curve, hashes and encodings can be met, by a group with torsion |
| TxProof.GenerateSignature | src/crypto/crypto.cpp:285-312 | the retry loop returns the signature of the first usable nonce, none only if no nonce is usable, and what it returns is accepted |
| TxProof.AttemptAccepted | src/crypto/crypto.cpp:314-336 | the signature of every nonce passes every test of the verifier unless its challenge is 0 |
| TxProof.CheckSignatureIff | src/crypto/crypto.cpp:314-336 | the verifier accepts exactly the signatures with a non-zero challenge that some nonce gives |
| TxProof.SignatureSound | src/crypto/crypto.cpp:314-336 | two accepted answers to different challenges for the same commitment give the secret key |
| TxProof.V1IsPrefix | src/crypto/crypto.cpp:273-283 | the hashed prefix of the version 2 struct is the version 1 struct |
| TxProof.ProofLayout | src/crypto/crypto.cpp:273-283 | the version 2 struct field by field, in the order of the source |
| TxProof.TxProofAccepted | src/crypto/crypto.cpp:342-604 | proofs of both versions are accepted at their version, with and without a spend key, for torsion-free keys |
| TxProof.TxProofAcceptedIff | src/crypto/crypto.cpp:342-604 | at either version, honest proofs are accepted under every hash, secret and nonce if and only if the keys have no torsion |
| TxProof.TorsionRejected | src/crypto/crypto.cpp:503-604 | with a torsion key, secret 2, nonce 1 and a suitable hash the verifier rejects the honest proof, at either version |
| TxProof.CheckTxProofIff | src/crypto/crypto.cpp:503-604 | for an honest claim about keys without torsion, the verifier accepts exactly the proofs that some nonce gives, at versions 1 and 2 and at no other |
| TxProof.TxProofSound | src/crypto/crypto.cpp:503-604 | two accepted proofs with the same points and different challenges, of any versions and hashes, show that the claim is true |
| TxProof.OneTimeKeys | src/crypto/crypto.cpp:185-257 | sender and receiver derive the same bytes, those of 8*r*v*G; the one-time key is the spend key plus the hash of these bytes and the index, times G; the receiver derives its secret, and the spend key is recovered from it |
| TxProof.DerivationInputsDiffer | src/crypto/crypto.cpp:200-210 | different derivations or output indices are hashed differently |
| BlockStore.BlockchainDB.AddTransactionData | src/blockchain_db/lmdb/db_lmdb.cpp:870-954 | the new rows of the four transaction tables, the new id, and the errors for a known hash and for a version that cannot be serialized |
| BlockStore.BlockchainDB.RemoveTransactionData | src/blockchain_db/lmdb/db_lmdb.cpp:958-1032 | drops exactly the transaction's rows and its outputs, with the errors for an unknown hash and for missing rows |
| BlockStore.BlockchainDB.AddOutput | src/blockchain_db/lmdb/db_lmdb.cpp:1034-1098 | appends to the amount's list and to the output table, with the returned index and the two errors |
| StoreConsistency.AddOutputHas | src/blockchain_db/lmdb/db_lmdb.cpp:1078-1091 | the row that the returned index leads to has the output's key, the unlock time, the height, and as commitment the plain amount for a version 2 coinbase, the mask for other outputs of amount 0, and none for the rest |
| BlockStore.BlockchainDB.RemoveOutput | src/blockchain_db/lmdb/db_lmdb.cpp:1146-1178 | removes the row of an amount index and the output row it points to |
| BlockStore.BlockchainDB.RemoveTxOutputs | src/blockchain_db/lmdb/db_lmdb.cpp:1123-1144 | removes a transaction's outputs, the last first |
| BlockStore.BlockchainDB.AddTransaction | src/blockchain_db/blockchain_db.cpp:182-249 | inputs, transaction rows and outputs in order, with the coinbase and version rules, as one function of the old tables |
| BlockStore.BlockchainDB.RemoveTransaction | src/blockchain_db/blockchain_db.cpp:337-351 | spent keys, then data, as one function of the old tables |
| BlockStore.BlockchainDB.AddBlock | src/blockchain_db/blockchain_db.cpp:251-308 | miner transaction, other transactions, block row, as one function of the old tables, with the new height |
| BlockStore.BlockchainDB.PopBlock | src/blockchain_db/blockchain_db.cpp:315-330 | the block and its transactions handed back, the tables without them |
| BlockStore.BlockchainDB.Perform | src/blockchain_db/blockchain_db.h:1859-1903 | an operation under a write transaction that is aborted on an error: the tables afterwards are those of the step function, errors included |
| BlockStore.RunAll | src/blockchain_db/blockchain_db.cpp:251-330 | every run of the object on well-formed blocks ends in the store of the remaining chain, consistent in all its indexes |
| StoreUndo.RemoveUndoesAddOutput | src/blockchain_db/lmdb/db_lmdb.cpp:1034-1178 | removing the output just added restores both output tables |
| StoreUndo.RemoveUndoesAdd | src/blockchain_db/blockchain_db.cpp:182-351 | removing a transaction just added restores every table |
| StoreUndo.RemoveUndoesAddIff | src/blockchain_db/blockchain_db.cpp:182-351 | it does so if and only if both sides agree on the amounts under which outputs are kept |
| StoreUndo.AmountsAgreeIff | src/blockchain_db/lmdb/db_lmdb.cpp:1123-1144 | the two sides disagree exactly on version 2 transactions with a coinbase input among several and a non-zero amount |
| StoreUndo.TwoCoinbaseInputs | src/blockchain_db/blockchain_db.cpp:225-246 | a transaction with two coinbase inputs can be added and then not removed |
| StoreUndo.AddBlockKeepsInv | src/blockchain_db/blockchain_db.cpp:251-308 | adding any block keeps the invariant of the tables |
| StoreUndo.PopUndoesAdd | src/blockchain_db/blockchain_db.cpp:251-330 | popping a block just added restores every table exactly and hands back its transactions in reverse order |
| StoreUndo.PopUndoesAddIff | src/blockchain_db/blockchain_db.cpp:251-330 | it does so if and only if both sides agree on the amounts of every transaction of the block |
| StoreUndo.PopLeavesRows | src/blockchain_db/blockchain_db.cpp:251-330 | otherwise popping fails or leaves outputs of amount 0 behind |
| StoreRuns.RunIsReplay | src/blockchain_db/blockchain_db.cpp:251-330 | after every run of adds and pops the store is the one obtained by adding the remaining chain alone |
| StoreUndo.AddTransactionOkIff | src/blockchain_db/blockchain_db.cpp:182-249 | a transaction is added if and only if its inputs are key or coinbase inputs, its key images are unspent and differ, its hash is new, its version is known, and its outputs are to keys, at version 1 with non-zero amounts |
| StoreConsistency.AddRowOkIff | src/blockchain_db/lmdb/db_lmdb.cpp:755-831 | in a linked store a block row is added if and only if its hash is new and it names the top block as predecessor, or is the first and of a version below 4 |
| StoreAccepts.RunAddsIff | src/blockchain_db/blockchain_db.cpp:182-308 | after every run of add_block and pop_block on well-formed blocks, any block at all is added if and only if no key image is spent twice in the remaining chain and the block, no transaction hash is used twice, all transactions are in order, and the block is new and extends the top |
| StoreAccepts.RunPops | src/blockchain_db/blockchain_db.cpp:315-330 | after every such run popping fails only on the empty chain; otherwise it hands back the last block and its transactions, last first, and leaves the store of the chain before it |
| StoreConsistency.SpentExact | src/blockchain_db/blockchain_db.cpp:206-218 | the spent set is the set of the chain's key images, none of them used twice |
| StoreConsistency.OutputsExact | src/blockchain_db/blockchain_db.cpp:226-248 | amount indices, amount rows and output rows correspond one to one, each pointing back to its transaction and local index, and no row is left over |
| StoreConsistency.RctDrift | src/blockchain_db/blockchain_db.cpp:273-303 | for any block, how far the counted and the stored amount-0 outputs drift apart |
| StoreConsistency.RctExact | src/blockchain_db/blockchain_db.cpp:273-303 | on well-formed chains the blocks' counts sum to the length of the amount-0 list |
| StoreConsistency.BlocksExact | src/blockchain_db/lmdb/db_lmdb.cpp:755-831 | the block table is the chain, linked by hashes, each row with its own count of ringct outputs and the running sum |
| StoreConsistency.TxsExact | src/blockchain_db/blockchain_db.cpp:182-249 | the transaction tables hold the chain's transactions under their hashes, which all differ, with one row each and no others, at the height of their block and with their unlock time; the indices of each lead to output rows with the contents of AddOutputHas |
| StoreConsistency.RunConsistent | src/blockchain_db/blockchain_db.cpp:182-351 | all of these after every run of add_block and pop_block on well-formed blocks |
| ThreadPool.CountsKept | src/common/threadpool.cpp:91-185 | every step keeps each waiter's count equal to its queued plus its popped but unfinished entries, and active equal to the threads between pop and completion |
| ThreadPool.LeafFirstKept | src/common/threadpool.cpp:104-110 | every step keeps the leaf entries a prefix of the queue |
| ThreadPool.ConservedKept | src/common/threadpool.cpp:91-185 | every step keeps every submitted task, queued or inline, in exactly one place: once in the queue, in one executing frame, or finished |
| ThreadPool.ErrorsKept | src/common/threadpool.cpp:137-185 | every step keeps each waiter's error flag equal to whether a queued task of it has thrown |
| ThreadPool.InvKept | src/common/threadpool.cpp:53-185 | every step keeps the whole invariant |
| ThreadPool.ReachableInv | src/common/threadpool.cpp:45-185 | the invariant holds in every reachable state |
| ThreadPool.WaitReturnsAfterAllIff | src/common/threadpool.cpp:91-155 | when wait returns, all tasks submitted through the waiter have ended if and only if no submit through it is still running its task; the result is false exactly when one of them threw |
| ThreadPool.WaitInsideInline | src/common/threadpool.cpp:94-102 | a run in which wait returns true while a task of the waiter is running |
| ThreadPool.BlockedWaiterHasWork | src/common/threadpool.cpp:137-185 | a waiter above zero always has an entry in the queue or in a thread |
| ThreadPool.PoppedOnceLeafFirst | src/common/threadpool.cpp:157-185 | a popped task never ran before, and no other task is popped while a leaf is queued |
| ThreadPool.SubmitExact | src/common/threadpool.cpp:91-112 | a submitted task is run at once by its thread if and only if it is no leaf and either the thread is in a task, or all threads are busy and work is queued; otherwise it is queued, a leaf in front, and its waiter alone counts one more |
| ThreadPool.OnlyLeavesRefused | src/common/threadpool.cpp:91-98 | in every reachable state only leaf tasks are refused the use of the pool |
| ThreadPool.LeafRefused | src/common/threadpool.cpp:92-168 | a leaf task that has begun is refused it |
| ThreadPool.LeavesIff | src/common/threadpool.cpp:157-167 | in every reachable state a thread leaves the loop if and only if the pool is stopped or, in a wait, every task submitted so far has started |
| ThreadPool.StoppedKeepsQueue | src/common/threadpool.cpp:53-89 | over every run without a restart a stopped pool keeps every queued task |
| ThreadPool.CreateMakes | src/common/threadpool.cpp:79-89 | a start makes exactly one thread less than the maximum, and each can take what is queued |
| ThreadPool.RunKeepsWorkers | src/common/threadpool.cpp:53-89 | over every run with any number of restarts there are never more such threads |
| RandomMath.V4RandomMath | src/crypto/variant4_random_math.h:85-168 | the unrolled interpreter runs the instructions up to RET, at most seventy |
| RandomMath.InstructionMeaning | src/crypto/variant4_random_math.h:92-127 | what each instruction means: products, sums and differences modulo 2^32, rotations and exclusive or bit by bit; no register but the destination changes |
| RandomMath.RotationBits | src/crypto/variant4_random_math.h:108-119 | rotating right by k brings bit i + k to place i, rotating left brings bit i to place i + k |
| Jit.GenerateJitCode | src/crypto/CryptonightR_JIT.c:56-121 | succeeds exactly when both protection calls do and the code fits; the buffer always holds a prefix of the code and is otherwise untouched |
| Jit.GenerateBody | src/crypto/CryptonightR_JIT.c:69-106 | the loop writes the templates of all instructions up to RET, or stops before the end of the buffer |
| Jit.GenerateOne | src/crypto/CryptonightR_JIT.c:71-106 | one instruction: the count load unless elided, the template, and the tracked rotation source |
| Jit.AppendCode | src/crypto/CryptonightR_JIT.c:100-106 | the template with the constant of an addition patched in, or nothing where it would pass the end |
| Jit.LittleEndianValue | src/crypto/CryptonightR_JIT.c:105-106 | the four bytes patched in are the constant's, the lowest first |
| Jit.Append | src/crypto/CryptonightR_JIT.c:48-54 | copies all of a template, or nothing where it would pass the end |
| Jit.ChunksExecute | src/crypto/CryptonightR_JIT.c:71-103 | with or without the load, one instruction's templates do what the instruction does, and the tracked source stays truthful |
| Jit.PlanExecutes | src/crypto/CryptonightR_JIT.c:69-106 | so do the templates of the rest of a program, from any state that matches the tracked source |
| Jit.RoutineIsInterpreter | src/crypto/CryptonightR_JIT.c:15-121 | for every program of faithful instructions, all registers and any previous count, the routine leaves the nine registers that the interpreter leaves |
| Jit.SingleIffFaithful | src/crypto/CryptonightR_JIT.c:77-81 | a one-instruction program is compiled correctly if and only if its table index loses nothing |
| RandomProgram.Source.Take | src/crypto/variant4_random_math.h:171-178 | the bytes taken, hashed again first when too few are left |
| RandomProgram.FindAlu | src/crypto/variant4_random_math.h:308-338 | the first cycle with a free unit and its highest free unit, or none before the last cycle |
| RandomProgram.ReadInstruction | src/crypto/variant4_random_math.h:256-292 | the fields that the next bytes give, with source 8 for a source equal to the destination; the instruction is always faithful |
| RandomProgram.Try | src/crypto/variant4_random_math.h:250-399 | a candidate is dropped if and only if it rotates a register twice, repeats an operation with the same source value, or would leave its register unchanged for more than seven cycles; put off if and only if it cannot end in time; otherwise appended at its earliest start, with all tables those of the new program and its schedule |
| RandomProgram.ConstantBytes | src/crypto/variant4_random_math.h:377-387 | the constant of an addition is read from its bytes as the code generator writes them |
| Schedule.ScheduleSound | src/crypto/variant4_random_math.h:308-345 | in a schedule no unit is used twice in a cycle, operands are ready when an instruction starts, and rotation number k starts in cycle 2k or later |
| Schedule.ScheduleUnique | src/crypto/variant4_random_math.h:308-345 | a program has at most one schedule |
| Schedule.ScheduledAppended | src/crypto/variant4_random_math.h:308-345 | an instruction placed as early as possible extends a schedule |
| Schedule.EntriesTell | src/crypto/variant4_random_math.h:300-306 | comparing packed table entries is the test whether the last instruction on the register had the same opcode and source value |
| Schedule.RotationWaitsIff | src/crypto/variant4_random_math.h:322-326 | a rotation starts after an earlier one has finished if and only if no unit is idle before, from its operands and its number on |
| Schedule.RotationsOverlap | src/crypto/variant4_random_math.h:322-326 | a scheduled program in which two rotations overlap |
| RandomProgram.FirstPhase | src/crypto/variant4_random_math.h:216-399 | at most sixty faithful instructions with a schedule, no register rotated twice without another write between, no operation but a product repeated with the same value, and why the loop stopped: all four registers are busy up to cycle 45, or the tries have run out |
| RandomProgram.SecondPhase | src/crypto/variant4_random_math.h:401-425 | appends only the rotation and multiplication pattern, on variable registers, until one has a critical path of 45 cycles or there are seventy instructions |
| RandomProgram.Pass | src/crypto/variant4_random_math.h:215-438 | whatever the hash gives, the program ends in RET after at most seventy instructions, is compiled as the interpreter runs it, has the critical path wanted unless it is full, begins with what the first loop promises, and the use of register 8 is reported |
| RandomProgram.Init | src/crypto/variant4_random_math.h:215-438 | an accepted program has sixty to seventy instructions and uses register 8 as well |
| HeavyHash.Umul128 | src/crypto/cn_heavy_hash_soft.cpp:420-444 | four 32-bit products with wrapped sums give the exact 128-bit product |
| HeavyHash.Hardware | src/crypto/cn_heavy_hash_hard_intel.cpp:343-376 | the loop applies the step function once a pass to registers and pad |
| HeavyHash.Half | src/crypto/cn_heavy_hash_soft.cpp:482-514 | half a pass is one step, with the pointer kept as a slot and the product from four parts |
| HeavyHash.Software | src/crypto/cn_heavy_hash_soft.cpp:480-545 | the loop with exchanged roles applies the step twice the number of passes, for every count |
| HeavyHash.BothLoops | src/crypto/cn_heavy_hash_soft.cpp:461-545 | for every even count, pad and starting registers both loops end in the same registers and pad |
| HeavyHash.SlotIsMasked | src/crypto/cn_heavy_hash.hpp:218-258 | the slot of an address is the address under the mask of the pad's size, for every power of two |
| HeavyHash.SignExtendKeeps | src/crypto/cn_heavy_hash_hard_intel.cpp:368-374 | the 32-bit divisor keeps its signed value in 64 bits |
| HeavyHash.MultiplyAdds | src/crypto/cn_heavy_hash_hard_intel.cpp:353-365 | what a step adds to the register is the exact 128-bit product, high word to the low half |
| HeavyHash.WordLaws | src/crypto/cn_heavy_hash_hard_intel.cpp:349-366 | sums wrap at 2^64, and exclusive or works on each bit |
| HeavyHash.RunInjective | src/crypto/cn_heavy_hash_hard_intel.cpp:343-366 | in version 0, with AES rounds that can be undone, no two states run into the same one, for every number of steps |
| Arith.XorBit | src/crypto/blake256.c:267-277 | bit i of an exclusive or is the sum of the bits modulo 2 |
| Arith.XorTwice | src/crypto/blake256.c:267-277 | exclusive or undoes itself |
| Blake256.State.constructor | src/crypto/blake256.c:129-140 | the initial state is that of the empty message |
| Blake256.State.Compress | src/crypto/blake256.c:82-127 | the counter's two words advance by a block and enter the compression unless nulled |
| Blake256.State.Update | src/crypto/blake256.c:156-184 | the buffered, in-place update is the update function, including the zero-length case |
| Blake256.State.Pad | src/crypto/blake256.c:201-222 | the padding branches, with their counter corrections |
| Blake256.State.Final | src/crypto/blake256.c:191-227 | padding, length and output as a function of the state |
| BlakeSpec.AbsorbFollows | src/crypto/blake256.c:156-184 | absorbing data takes the state of m to the state of m + data, counter words included |
| BlakeSpec.UpdateAppendsIff | src/crypto/blake256.c:156-184 | an update appends its data if and only if there is some or the buffer is empty |
| BlakeSpec.StreamedTakes | src/crypto/blake256.c:156-184 | the state after any updates: each empty one cuts the message to whole blocks |
| BlakeSpec.StreamedFollowsIff | src/crypto/blake256.c:156-184 | the state is that of all the data if and only if every empty update comes where the buffer is empty |
| BlakeSpec.ByteDropped | src/crypto/blake256.c:178-183 | a byte followed by an empty update leaves the state of the empty message |
| BlakeSpec.BlockWithRoom | src/crypto/blake256.c:201-227 | the last block with room for the length is compressed with the message's bit count, or with none if it has no message bits |
| BlakeSpec.BlockWithoutRoom | src/crypto/blake256.c:213-227 | otherwise two blocks are, the second with a nulled counter |
| BlakeSpec.FinishedIsChain | src/crypto/blake256.c:191-227 | finishing the state of m is the fold of the compression over the padded message |
| BlakeSpec.PaddedInjective | src/crypto/blake256.c:191-227 | the padded message is whole blocks, and different messages are padded differently |
| BlakeSpec.StreamedHash | src/crypto/blake256.c:156-243 | however a message is split into chunks, streaming it gives its hash if no empty chunk comes where data is buffered |
| Blake256.Hash | src/crypto/blake256.c:238-243 | the one-shot hash is the fold over the padded message |
| Blake256.Hmac.constructor | src/crypto/blake256.c:254-281 | inner and outer state have taken in the two padded keys, long keys hashed first |
| Blake256.PadBits | src/crypto/blake256.c:267-277 | bit by bit the pads are the exclusive or of key block and constant, from which the key block is recovered |
| Blake256.Hmac.Update | src/crypto/blake256.c:314-317 | the inner state takes in the data, or with none is cut to whole blocks |
| Blake256.Hmac.Final | src/crypto/blake256.c:325-331 | the digest is the two-layer construction of section 2 of RFC 2104 |
| Blake256.HmacHash | src/crypto/blake256.c:342-347 | so is that of the one-shot form |
| Varint.WriteVarint | src/common/varint.h:69-80 | the loop writes the varint of its argument |
| Varint.ReadVarint | src/common/varint.h:94-119 | the loop with its overflow and canonical-form tests, for every width |
| Varint.ReadWritten | src/common/varint.h:69-119 | for every width, reading inverts writing whatever follows |
| Varint.ReadIsWritten | src/common/varint.h:94-119 | a read that ends in a byte without flag consumed exactly what writing its value gives; any other ran out of input |
| Varint.EncodedInjective | src/common/varint.h:69-80 | different numbers have different varints |
| Base58.ReverseAlphabet | src/common/base58.cpp:53-76 | the table built by the loop is the inverse of the alphabet and -1 elsewhere |
| Base58.TextHoldsBlock | src/common/base58.cpp:48-50 | the size table gives every block enough symbols and can be inverted |
| Base58.EncodeBlock | src/common/base58.cpp:122-135 | fills exactly its slot with the block's number in base 58 |
| Base58.BlockNumber | src/common/base58.cpp:145-160 | the scan in 64-bit arithmetic yields the number, or fails exactly on a foreign symbol or a value of 2^64 or more |
| Base58.DecodeBlock | src/common/base58.cpp:137-168 | refuses exactly a bad length, a foreign symbol or a value too large; otherwise writes exactly its slot |
| Base58.BlockDecodes | src/common/base58.cpp:122-168 | a block is decoded from its text |
| Base58.BlockEncodes | src/common/base58.cpp:122-168 | an accepted text is the text of its block |
| Base58.Encode | src/common/base58.cpp:171-192 | the loops over blocks give the encoding |
| Base58.Decode | src/common/base58.cpp:194-224 | the loops over blocks give the decoding or its failure |
| Base58.DecodeEncoded | src/common/base58.cpp:171-224 | every byte string is decoded from its text |
| Base58.EncodeDecoded | src/common/base58.cpp:171-224 | every accepted text is the text of what it decodes to |
| Address.DecodeAddrEncoded | src/common/base58.cpp:226-256 | tag and data come back from their address, for every hash |
| Address.EncodeAddrDecodedIff | src/common/base58.cpp:226-256 | an accepted address comes back from what it decodes to if and only if its tag ends within the payload |
| Address.UnendedTag | src/common/base58.cpp:251-255 | an accepted address that does not come back |
| Utf8.Utf8Canonical | src/common/utf8.h:38-116 | the single pass equals decoding all, transforming all and encoding all, with the error that comes first |
| Utf8.DecodesIff | src/common/utf8.h:48-86 | a point is read if and only if the first byte is no tail and below 0xF8 and enough bytes follow |
| Utf8.TailsUnchecked | src/common/utf8.h:55-80 | of the bytes after the first only the low six bits are read |
| Utf8.OutputWellFormed | src/common/utf8.h:38-116 | every output is in shortest form and decodes to the transformed points |
| Utf8.Idempotent | src/common/utf8.h:38-116 | a second pass changes nothing if the transform is idempotent |
| Utf8.UnchangedIffWellFormed | src/common/utf8.h:38-116 | without a transform a text comes back if and only if it is well formed |
| Utf8.OverlongShortened | src/common/utf8.h:55-63 | a text that does not come back: the two-byte form of 0 |
| Utf8.ValidUnchanged | src/common/utf8.h:38-116 | text valid by RFC 3629 comes back unchanged |
| Pruning.SeedRoundTrip | src/common/pruning.cpp:37-42 | both parts of a seed can be read back, the stripe exactly when there is more than one |
| Pruning.KeptByOneStripe | src/common/pruning.cpp:44-67 | below the tip exactly one stripe keeps a block, the one of its own seed |
| Pruning.TipKept | src/common/pruning.cpp:44-67 | a block in the tip is kept by every seed and has seed 0 |
| Pruning.TipIff | src/common/pruning.cpp:55-60 | the test for the tip is right for all chains if and only if the 64-bit sum does not wrap |
| Pruning.PrunedStaysPruned | src/common/pruning.cpp:44-60 | a pruned block stays pruned as the chain grows, for any seed |
| Pruning.NextUnprunedLeast | src/common/pruning.cpp:69-91 | for good seeds the result is the least unpruned height from the given one on |
| Pruning.NextUnprunedLeastIff | src/common/pruning.cpp:69-91 | on all heights within the guard this holds if and only if the seed is good |
| Pruning.BadSeedWitness | src/common/pruning.cpp:69-91 | for every other seed, a height at which the result is not the least unpruned one |
| Pruning.NextRunAhead | src/common/pruning.cpp:83-90 | for any stripe the height found lies ahead, so that the last guard never fails |
| Pruning.EndOfStripe | src/common/pruning.cpp:93-108 | inside a kept run the next pruned height is the end of the stripe or the tip |
| Pruning.NextPrunedEndsRun | src/common/pruning.cpp:93-108 | everything before the result is unpruned, and the result is pruned or in the tip |
| Pruning.SpansExact | src/common/pruning.cpp:69-108 | alternating the two functions terminates and enumerates exactly the unpruned heights |
| Permutation.CoversIffBijection | src/common/apply_permutation.h:45-48 | the sanity check accepts exactly the bijections |
| Permutation.ApplyPermutation | src/common/apply_permutation.h:42-68 | afterwards v[k] is what v[permutation[k]] was; fails exactly on a wrong size or a non-bijection, leaving v alone |
| Permutation.FollowCycles | src/common/apply_permutation.h:50-60 | the outer loop leaves every element in place |
| Permutation.FollowCycle | src/common/apply_permutation.h:50-60 | the inner loop finishes one cycle, terminates, and disturbs no other |
| Combinations.Combinator.Combine | src/common/combinator.h:56-72 | the selections of k elements, in order, as many as the binomial coefficient, with the two errors |
| Combinations.Combinator.DoCombine | src/common/combinator.h:74-95 | appends the selections above `from` behind the current prefix, and restores the prefix |
| Combinations.SelectionsSound | src/common/combinator.h:74-95 | every selection is strictly increasing and in range |
| Combinations.SelectionsComplete | src/common/combinator.h:74-95 | every strictly increasing choice is among the selections |
| Combinations.SelectionsOrdered | src/common/combinator.h:74-95 | selections are in strict lexicographic order, hence each occurs once |
| Combinations.SelectionsCount | src/common/combinator.h:74-95 | their number is the binomial coefficient |
| Combinations.CombinationsCount | src/common/combinator.cpp:35-48 | the 64-bit loop gives the binomial coefficient if and only if no product overflows |
| Combinations.OverflowExample | src/common/combinator.cpp:35-48 | an input on which a product overflows |

## Left out

- BlockStore.BlockchainDB.AddBlock: after an error says which error, not what the tables hold, because the source leaves that to the aborted write transaction; BlockStore.BlockchainDB.Perform models the abort.
- BlockStore.BlockchainDB.AddTransaction: likewise after an error.
- BlockStore.BlockchainDB.PopBlock: likewise after an error.
- BlockStore.BlockchainDB.RemoveTransaction: likewise after an error.
- BlockStore.BlockchainDB.AddTransactionData: after the version error says nothing of the tables, for the same reason.
- BlockStore.BlockchainDB.RemoveTransactionData: after an error says only that the index and output-list tables are as before.
- BlockStore.BlockchainDB.RemoveTxOutputs: likewise says nothing of the tables after an error.
- RandomProgram.Init: takes the number of passes, since the loop ends only if the hash allows it.
- TxProof.TxProofAccepted: for keys without torsion, since with torsion it is false; the exact condition is TxProof.TxProofAcceptedIff.
- HeavyHash.Half: the two halves of the software pass are the same code with two registers exchanged, and are one method called twice with them exchanged.
- A version 2 transaction of null ringct type with outputs and no coinbase input, for which the source reads past the end of its masks; the model stores mask 0.
- The store's pruned-tip table, hard-fork object, block weights and difficulties, low-level database errors, batches, locks, statistics and the key-image fixup.
- The transaction pool's relay-method setters and category tests, which would only add easy members.
- Tasks run inline in `submit` that throw, and throwing tasks without a waiter, in the thread pool; fairness and timing.
- The heavy hash before and after its main loop (keccak, filling and folding the pad, the final hash), and the ARM variant.
- Machine encodings of the templates, page protection beyond success or failure, and the instruction cache.
- BLAKE-224 beyond its parameters, its HMAC, and messages of 2^64 bits or more.
- Field and curve arithmetic, keccak, AES, Groestl, JH and Skein internals, ChaCha, and the Monero slow-hash variants.
- `get_random_stripe`, and all networking, wallet, consensus and user-interface code.
