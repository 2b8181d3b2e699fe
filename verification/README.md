# Private-transfer pool: a verified model

The pool keeps one Merkle tree of commitments in four forms: the dense tree the merkle
service rebuilds on every request, the incremental copy the backend keeps in Redis, the
path check inside the withdrawal circuit, and the ring of the last ten roots in the
on-chain account. An indexer moves the program's events into Postgres and into the Redis
tree. This project models all of them and proves that they agree over every run.

Main results, in the order a reader may want them:

* `WholeSystem.EndToEndRunning`: for every state a running backend can be in, when the withdrawal a
  client builds is accepted, **if and only if**. The hypotheses, the first three in `Scenario`:
  * an honest run of the program (`HonestRun`);
  * a ledger that tells exactly this run (`ChainLog.Tells`): first lines for a leaf or a nullifier are
    those of the run. A ledger whose lines are the events of the run does (`RunIsTold`);
  * a backend that started with nothing and went through any schedule of ticks, deaths in the middle
    of a tick, failing transactions, Redis outages and losses, and restarts, each tick keeping up
    (`KeepsUp`: nothing unprocessed lies beyond its page limit, no log messages are missing, what
    fails is followed by failures);
  * and, beside `Scenario`, no tick since the last loss of Redis that indexed leaf 0 into the lost
    store (`EndsSpoilt`).

  Without a root nothing is accepted. A tree that counts all that is served accepts a withdrawal
  exactly if the note is unspent, at most nine deposits on chain are missing from the tree, and the
  recipient's key, as a number, is below the frontend's modulus. Any other tree is a complete one in
  which the addition of one more leaf stopped after k writes, a state that lasts until the next
  start; then one level of the tree decides besides (`Client.HalfWrittenVerdict`).
  `EndToEnd` and `EndToEndInStep` are the cases of complete trees.
* `Client.WithdrawalDuringUpdate`: the same question when the proof was read while the backend was
  adding a leaf, every level and the root at its own moment.
* `IndexerRuns.BackendRunIsSound`: over every schedule that keeps up, and every ledger in which no
  line skips a leaf index (`WellFormed`), the database is a gap-free image of what the log says, and
  the node is sound, so that a restart repairs its tree (`RestartIsSound`), **if and only if** no tick
  since the last loss of Redis indexed leaf 0 into the lost store. A loss takes all keys, between two
  ticks. `GuardedNeverSpoilt` gives a sufficient condition, `FailingSchedules.LossBeforeFirstLeaf` a
  schedule that fails.
* `RevertedEvents.RevertedDepositDecides` and `RevertedEvents.HarmlessExactly`: the indexer also reads
  the events of transactions that were reverted. What one such line changes, exactly when it is
  harmless, and that a harmful one ends all withdrawals from the backend's tree.
* `IndexerRuns.FaultFreeRun` and `WholeSystem.TreeRootIsLatestRow`: over any list of ticks without
  faults the tree counts every row, and `/api/root` answers the latest root row with Redis or without.
* `Solvency.Solvency` and `Solvency.WithdrawalExact`: withdrawals are arbitrary, deposits
  honest; accepted withdrawals spend distinct deposits of equal amount, and the vault check
  never decides the fate of a withdrawal.
* `CrashRecovery.StartupRecovers`: every tree operation is a list of Redis writes, and a
  stopped operation is a prefix of it; from whatever is left, startup rebuilds the tree.
* `Incremental.GrownRefinesDense` and `Merkle.PositionBinding`: the incremental tree refines
  the dense one for any hash and any number of leaves; with an injective hash a path that
  verifies names one leaf and is that leaf's path.
* `Circuit.LeafOpensExactly`: a leaf of the tree is opened by exactly one witness; nobody without the
  secret and the nullifier of a note can withdraw it.
* `FieldReduction.OnChainReduceExact` and `FieldReduction.ReducersAgree`: what the two
  256-bit reductions compute, and exactly when they agree.

## How it is organised

| file | part of the repository |
|---|---|
| `Arithmetic.dfy`, `Wrappers.dfy` | arithmetic facts, `Option` and `Result` |
| `Merkle.dfy` | the tree as mathematics, for any hash: nodes, paths, binding |
| `MerkleService.dfy` | `app/merkle/src/poseidon.js` |
| `Circuit.dfy` | `app/circuits/withdrawal` |
| `TreeStore.dfy`, `TreeCache.dfy` | `cache.rs` and `tree.rs`: the writes of every operation, and the operations |
| `CrashRecovery.dfy`, `Incremental.dfy` | stopped operations, refinement, proofs from the store |
| `RedisLoss.dfy`, `ConcurrentProof.dfy` | `add_leaf` on a store that lost its keys; proofs read during `add_leaf` |
| `Bytes.dfy`, `FieldReduction.dfy`, `PublicInputEncoding.dfy` | `instructions.rs`, `useWithdraw.ts`, `crypto.ts` |
| `Events.dfy` | `events.rs` and the offsets the indexer reads |
| `Pool.dfy`, `PoolRuns.dfy`, `Solvency.dfy` | the on-chain program, its runs, its honest runs |
| `Database.dfy`, `Pagination.dfy`, `Indexer.dfy` | `db.rs`, `indexer.rs`, startup in `main.rs` |
| `LogImage.dfy`, `IndexerFaults.dfy`, `Batches.dfy` | what the log says, what indexing it does, transactions that fail |
| `BackendSteps.dfy`, `IndexerRuns.dfy`, `FailingSchedules.dfy` | the backend as a state machine, its runs, runs that go wrong |
| `HalfWritten.dfy`, `Api.dfy` | what the tree of a running backend can be; the two endpoints that read it |
| `ChainLog.dfy`, `Client.dfy` | what the program's events tell the indexer; the frontend's deposits and withdrawals |
| `WholeSystem.dfy`, `RevertedEvents.dfy` | everything joined together; events of reverted transactions |

Components that change state in place are classes or methods with loops (`TreeCache.Cache`,
`Pool.PoolProgram`, `Database.Db`, `Indexer.Indexer`, `BuildTree`, `Paginate`, `Sub256` and
so on). Each is proved to do what a function on the old state says, and the lemmas about
runs are about those functions.

Modelling choices a reader needs:

* The tree, the store, the database and the indexer are generic in the value type and in the
  hash. The circuit and the program use free terms, `Lit(n)` and `Perm(a, b, c, d)`, for field
  elements: `hash_1`, `hash_2` and `hash_3` share one zero-padded permutation as in `main.nr`,
  different inputs give different outputs, and no output is the empty leaf.
* A proof is what the prover made for given public inputs from a witness; the verifier accepts
  it for exactly those public inputs if the circuit accepts the witness. The program compares
  inputs as records of field terms; that the 140 bytes it sends stand for exactly such a record is
  `LayoutDeterminesInputs`, and the link between the two is informal.
* Redis is a list of stretches (`TreeStore.Redis`): so many commands succeed, then one fails, with or
  without having taken effect, then the next stretch. A failing hash request or a failing read
  stops an operation at the same places, and so does the death of the process, after which no
  command follows.
* A transaction of a tick may fail after any number of its lines, be answered without log messages,
  or be processed completely (`Indexer.Trouble`). A tick may end early because a page of signatures
  could not be fetched; it then changes nothing.
* `indexer.rs:97-112` and `indexer.rs:179-206` never look at the error of a transaction, so the ledger
  also holds the lines of reverted ones; a log is any list of lines that skips no leaf index.
* The state machine lets Redis lose all keys between two ticks while the process stays up, as the
  reconnecting client of `cache.rs` does; a loss is not noticed before the next start.
* Lemmas carry `{:induction false}`: every induction is written out.
* The depth is a parameter, at most 30 for the program; 20 in the repository.

Where the code and its own documentation differ, the code is modelled:

* `instructions.rs:12` calls its constant the scalar-field modulus; it is the larger modulus of the
  base field, the one in `useWithdraw.ts:25-26` is that of the scalar field (`ModuliOfTheCurve`). `PROJECT_CONTEXT.md:245-250` wants both sides to reduce a
  key to the same bytes; `ReducersAgree` says when they do.
* `instructions.rs:42-43` says four subtractions suffice; `FourIterationsNotEnough` and
  `OnChainReduceExact` say for which inputs.
* `db.rs:37` calls saving a deposit idempotent; the roots table has no unique key, so a second
  call adds a row (`RepeatedInserts`). The indexer never makes that call (`ReplayIgnored`).
* A transaction the indexer fails to process is passed over if a newer one of the same tick
  succeeds; `FailureRevisitedExactly` is the exact condition, `FailureLeavesGap` an example.
* `docs/architecture.md:347` says that the backend goes on through Postgres when Redis is lost. If
  leaf 0 is indexed after the loss and before the next start, it stores a root that is wrong from
  depth 2 on and that no restart repairs (`LossBeforeFirstLeaf`, `SpoiltForGood`); after every other
  loss between two ticks a restart rebuilds the tree.

## Model

| member | source | states |
|---|---|---|
| Merkle.AncestorIsShift | workspace/ptrans/app/backend/src/tree.rs:168-183 | halving the index d times gives the position above the leaf at level d |
| Merkle.WidthClosedForm | workspace/ptrans/app/backend/src/tree.rs:162-176 | a stored level d holds max(1, ceil(n / 2^d)) entries |
| Merkle.NodePastEnd | workspace/ptrans/app/backend/src/tree.rs:143-150 | every node past the stored entries is the empty hash of its level |
| Merkle.NodeUntouched | workspace/ptrans/app/backend/src/tree.rs:105-194 | appending a leaf changes no node that is not above it |
| Merkle.PathFolds | workspace/ptrans/app/circuits/withdrawal/src/merkle_tree.nr:3-24 | the path check from any leaf, filled or empty, arrives at the node above it |
| Merkle.BindingAt | workspace/ptrans/app/circuits/withdrawal/src/merkle_tree.nr:3-24 | with an injective hash a path that reaches a node is the path of one leaf below it |
| Merkle.PositionBinding | workspace/ptrans/app/circuits/withdrawal/src/merkle_tree.nr:3-24 | what verifies against a root is the leaf whose index bits are the negated flags, with its only sibling path |
| Merkle.RootsEqualExactly | workspace/ptrans/app/merkle/src/poseidon.js:36-58 | two lists have one root if and only if all their leaves, padding included, agree |
| Merkle.RootDeterminesLeaves | workspace/ptrans/app/merkle/src/poseidon.js:36-58 | lists of non-empty leaves with one root are equal |
| Merkle.RootNotEmpty | workspace/ptrans/app/merkle/src/poseidon.js:36-58 | the root of a non-empty list of non-empty leaves is not the empty value |
| MerkleService.BuildTree | workspace/ptrans/app/merkle/src/poseidon.js:36-58 | every entry of every level of the dense tree, the root, and 2^depth - 1 hash calls |
| MerkleService.BuildProof | workspace/ptrans/app/merkle/src/poseidon.js:63-78 | the sibling path, or a missing sibling at every level if the index lies outside the tree; the flags and the root of the dense tree |
| Circuit.PoseidonIsIdeal | workspace/ptrans/app/circuits/withdrawal/src/main.nr:7-20 | two-input hashing is injective and never gives the empty leaf |
| Circuit.ZeroPadding | workspace/ptrans/app/circuits/withdrawal/src/main.nr:7-20 | the three hashes are one permutation padded with zeros: a zero in the place of a missing input changes nothing |
| Circuit.HashesBind | workspace/ptrans/app/circuits/withdrawal/src/main.nr:7-20 | equal commitments have equal nullifier, secret and amount; equal nullifier hashes equal nullifiers |
| Circuit.ComputeMerkleRoot | workspace/ptrans/app/circuits/withdrawal/src/merkle_tree.nr:3-24 | the loop computes the fold of the path over the leaf |
| Circuit.VerifyMerkleProof | workspace/ptrans/app/circuits/withdrawal/src/merkle_tree.nr:25-34 | true exactly when the fold is the given root |
| Circuit.ComputeEmptyTreeZeros | workspace/ptrans/app/circuits/withdrawal/src/main.nr:53-63 | entry i is the root of the empty subtree of height i |
| Circuit.HonestWitnessAccepted | workspace/ptrans/app/circuits/withdrawal/src/main.nr:22-43 | the witness made from a leaf of the list satisfies the circuit |
| Circuit.AcceptedIsMember | workspace/ptrans/app/circuits/withdrawal/src/main.nr:22-43 | a satisfied circuit proves that the commitment is the leaf the flags point at, and that the path is its own |
| Circuit.CircuitAcceptsExactlyMembers | workspace/ptrans/app/circuits/withdrawal/src/main.nr:22-43 | for a given nullifier, secret and root: satisfiable if and only if the commitment is in the list and the nullifier hash fits |
| Circuit.LeafOpensExactly | workspace/ptrans/app/circuits/withdrawal/src/main.nr:22-43 | leaf i is opened by exactly one witness: its own nullifier, secret and path, for its own amount and nullifier hash |
| TreeStore.RunConcat | workspace/ptrans/app/backend/src/tree.rs:116-188 | stopping a sequence of operations is stopping one of them after the earlier ones finished |
| TreeStore.AsUsizeExact | workspace/ptrans/app/backend/src/indexer.rs:240-247 | the cast keeps the 64 bits of the index; negative ones become indices no tree reaches |
| TreeCache.Cache.Set | workspace/ptrans/app/backend/src/cache.rs:38-41 | the key is written if the command takes effect, also when only its reply is lost; otherwise nothing changes, and later commands may succeed again |
| TreeCache.Cache.SetLastSignature | workspace/ptrans/app/backend/src/cache.rs:167-174 | the same for the cursor |
| TreeCache.InitEmptyTree | workspace/ptrans/app/backend/src/tree.rs:63-90 | issues exactly the listed writes, in order, up to the first that fails |
| TreeCache.AddLeaf | workspace/ptrans/app/backend/src/tree.rs:105-194 | issues exactly the listed writes up to the first that fails, returns the stored root, makes depth hash calls for the next leaf and none otherwise |
| TreeCache.UpdatePath | workspace/ptrans/app/backend/src/tree.rs:137-193 | the loop from the leaf to the root, and the root and size written after it |
| TreeCache.ParentLevel | workspace/ptrans/app/backend/src/tree.rs:141-176 | one round of the loop: the next level, padded, with the parent rehashed |
| TreeCache.PadLevel | workspace/ptrans/app/backend/src/tree.rs:169-175 | the level extended with the empty hash until the index exists |
| TreeCache.GetProof | workspace/ptrans/app/backend/src/tree.rs:202-241 | the siblings read from the store, the flags of the index, the stored root |
| CrashRecovery.PatchIsLevel | workspace/ptrans/app/backend/src/tree.rs:162-176 | padding and patching either the old or the already updated level gives the new level |
| CrashRecovery.NextLevelIsLevel | workspace/ptrans/app/backend/src/tree.rs:140-184 | one round of the loop turns level d + 1 into the level of the extended list |
| CrashRecovery.LastTwoWrites | workspace/ptrans/app/backend/src/tree.rs:186-188 | between the root write and the size write the store is still recoverable |
| CrashRecovery.AddNextLeaf | workspace/ptrans/app/backend/src/tree.rs:105-194 | depth + 3 writes; stopped after any of them the store is recoverable; complete, it is the tree of one more leaf, also when it retries a stopped attempt |
| CrashRecovery.BetweenAtEnd | workspace/ptrans/app/backend/src/main.rs:306-347 | once every row is counted nothing can be half written |
| CrashRecovery.InitWritesExact | workspace/ptrans/app/backend/src/tree.rs:71-86 | the order of all writes of initialisation: for each level the empty hash, then the level; at the end root and size |
| RedisLoss.StartupInitialisesExactly | workspace/ptrans/app/backend/src/main.rs:289-330 | startup writes empty hashes if and only if the store has neither a root nor a leaf |
| CrashRecovery.InitNear | workspace/ptrans/app/backend/src/tree.rs:63-90 | initialisation stopped after any write is recoverable; complete, it is the empty tree |
| CrashRecovery.SyncNear | workspace/ptrans/app/backend/src/main.rs:311-330 | the sync loop stopped after any write is recoverable; complete, the store is the tree of all rows |
| CrashRecovery.StartupRecovers | workspace/ptrans/app/backend/src/main.rs:282-330 | from any recoverable store startup is recoverable at every point and ends with exactly the tree of all rows |
| Incremental.GrownIsStored | workspace/ptrans/app/backend/src/tree.rs:63-194 | initialising and adding the commitments in order stores exactly their tree |
| Incremental.StoredRefinesDense | workspace/ptrans/app/merkle/src/poseidon.js:36-58 | stored entries are the dense ones, the rest of each dense level is its empty hash, lengths and roots agree |
| Incremental.GrownRefinesDense | workspace/ptrans/app/backend/src/tree.rs:105-194 | the same for the tree grown leaf by leaf from any list |
| Incremental.StoredProofIsPath | workspace/ptrans/app/backend/src/tree.rs:211-240 | the proof from the store is the dense proof, for every index |
| Incremental.StoredProofVerifies | workspace/ptrans/app/backend/src/tree.rs:202-241 | the path check of the served proof gives the stored root |
| Bytes.LessIsNumeric | workspace/ptrans/programs/ptrans/src/instructions.rs:38-46 | the order of byte arrays is the order of their values |
| Bytes.EncodeOfValue | workspace/ptrans/app/frontend/src/services/crypto.ts:52-70 | writing the value of bytes big-endian gives the bytes back |
| Bytes.ValueOfEncode | workspace/ptrans/app/frontend/src/services/crypto.ts:52-70 | reading back a number that fits gives the number |
| FieldReduction.ProgramModulusValue | workspace/ptrans/programs/ptrans/src/instructions.rs:13-16 | the number the 32 bytes of the program's constant stand for |
| FieldReduction.ModuliOfTheCurve | workspace/ptrans/app/frontend/src/composables/useWithdraw.ts:25-26 | the frontend's constant is the order of the group of BN254, the program's the order of its base field, as polynomials in the curve's parameter |
| FieldReduction.Sub256 | workspace/ptrans/programs/ptrans/src/instructions.rs:19-33 | the borrow loop is subtraction modulo 2^256 |
| FieldReduction.ReduceToField | workspace/ptrans/programs/ptrans/src/instructions.rs:36-52 | subtracts the constant min(4, v div q) times |
| FieldReduction.OnChainReduceExact | workspace/ptrans/programs/ptrans/src/instructions.rs:36-52 | the result is congruent to the input and below q exactly when the input is below 5q; every input is below 6q |
| FieldReduction.FourIterationsNotEnough | workspace/ptrans/programs/ptrans/src/instructions.rs:42-51 | some 32 bytes, five times the constant, are left at or above the constant |
| FieldReduction.FiveIterationsAreEnough | workspace/ptrans/programs/ptrans/src/instructions.rs:42-51 | a fifth subtraction would leave the remainder for every 32 bytes |
| FieldReduction.FrontendReduceToField | workspace/ptrans/app/frontend/src/composables/useWithdraw.ts:28-40 | the shift loops encode the value modulo the frontend's constant |
| FieldReduction.First32Exact | workspace/ptrans/app/frontend/src/composables/useWithdraw.ts:28-33 | a longer input is cut off after 32 bytes, a shorter one filled up with zeros |
| FieldReduction.FrontendReduceExact | workspace/ptrans/app/frontend/src/services/crypto.ts:52-70 | value modulo r, idempotent, the identity exactly below r |
| FieldReduction.ReducersAgree | workspace/ptrans/app/frontend/src/composables/useWithdraw.ts:25-40 | program and frontend give the same bytes if and only if the value is below the frontend's modulus |
| FieldReduction.ReducersDisagree | workspace/ptrans/app/frontend/src/composables/useWithdraw.ts:25-40 | the frontend's modulus itself is a key on which they differ |
| PublicInputEncoding.EncodePublicInputs | workspace/ptrans/programs/ptrans/src/instructions.rs:55-77 | a 12-byte header and four 32-byte fields at their offsets |
| PublicInputEncoding.LayoutDeterminesInputs | workspace/ptrans/programs/ptrans/src/instructions.rs:55-77 | equal bytes exactly for equal root, nullifier hash, reduced recipient and amount |
| Events.EventRoundTrip | workspace/ptrans/app/backend/src/indexer.rs:222-272 | every event is read back as itself; the lengths keep the two kinds apart |
| Events.DecodeByLength | workspace/ptrans/app/backend/src/indexer.rs:222-272 | a line is a deposit if and only if it has 88 bytes, a withdrawal if and only if it has 80 |
| Events.EventLayout | workspace/ptrans/programs/ptrans/src/events.rs:3-16 | tag, then the fields in the order of their declaration, at their offsets |
| Events.LittleEndianIsReversed | workspace/ptrans/app/backend/src/indexer.rs:225 | a little-endian number is the big-endian number of the reversed bytes |
| Pool.PoolProgram.constructor | workspace/ptrans/programs/ptrans/src/instructions/pool.rs:24-38 | the creator's key, counters at zero, ten empty roots, no records |
| Pool.PoolProgram.IsKnownRoot | workspace/ptrans/programs/ptrans/src/state.rs:15-17 | true exactly when the root is in the ring |
| Pool.PoolProgram.AddRoot | workspace/ptrans/programs/ptrans/src/state.rs:18-22 | the next slot, and only it, gets the root |
| Pool.PoolProgram.TransferLamports | workspace/ptrans/programs/ptrans/src/instructions/deposit.rs:35-43 | moves the amount or fails and moves nothing |
| Pool.TransferExact | workspace/ptrans/programs/ptrans/src/instructions/deposit.rs:35-43 | possible if and only if the payer has the amount; then the payer loses it, the payee gains it, and no other balance changes |
| Pool.PoolProgram.HandleDeposit | workspace/ptrans/programs/ptrans/src/instructions/deposit.rs:19-65 | the guards in order; the whole new state and the event, or the error and the old state |
| Pool.PoolProgram.HandleWithdraw | workspace/ptrans/programs/ptrans/src/instructions/withdraw.rs:8-109 | the checks in order; the whole new state and the event, or the error and the old state |
| Pool.ErrorsExact | workspace/ptrans/programs/ptrans/src/instructions/withdraw.rs:51-75 | deposits and withdrawals fail with the error of the first check that fails in the program's order, and succeed if none fails |
| PoolRuns.StepCases | workspace/ptrans/programs/ptrans/src/lib.rs:21-43 | an instruction changes nothing, or is an accepted deposit, or an accepted withdrawal |
| PoolRuns.DepositKeepsWindow | workspace/ptrans/programs/ptrans/src/instructions/deposit.rs:28-49 | counters, slot index, ring contents and unequal neighbours are kept |
| PoolRuns.KnownIsLastTen | workspace/ptrans/programs/ptrans/src/state.rs:15-22 | a root is known exactly when it is among the last ten of ten empty roots followed by all deposited ones |
| PoolRuns.WithdrawalKeepsRecords | workspace/ptrans/programs/ptrans/src/instructions/withdraw.rs:13-20 | one record for each accepted withdrawal, with its data, and no nullifier twice |
| PoolRuns.TransferConserves | workspace/ptrans/programs/ptrans/src/instructions/withdraw.rs:91-99 | total lamports do not change |
| PoolRuns.DepositConserves | workspace/ptrans/programs/ptrans/src/instructions/deposit.rs:35-43 | vault = initial + deposits - paid out, and the total is constant |
| PoolRuns.WithdrawalConserves | workspace/ptrans/programs/ptrans/src/instructions/withdraw.rs:85-99 | the same, also when the recipient is the vault itself |
| PoolRuns.RunIsSound | workspace/ptrans/programs/ptrans/src/lib.rs:21-43 | every run of accepted and refused instructions keeps the counters, the window, the records and the money in order |
| PoolRuns.RecordsPersist | workspace/ptrans/programs/ptrans/src/instructions/withdraw.rs:13-20 | no run removes or changes a nullifier record |
| PoolRuns.AuthorityIsCreator | workspace/ptrans/programs/ptrans/src/instructions/pool.rs:24-30 | after every run the authority is still the one who created the pool |
| PoolRuns.GenesisKnows | workspace/ptrans/programs/ptrans/src/instructions/pool.rs:29-33 | a new pool knows the zero root and no other |
| Solvency.ValidProofSpendsDeposit | workspace/ptrans/programs/ptrans/src/instructions/withdraw.rs:60-75 | a known root and a satisfied circuit name a deposit of exactly the withdrawn amount, made with the nullifier and the secret of the witness |
| Solvency.PickedAtMostAll | workspace/ptrans/programs/ptrans/src/instructions/withdraw.rs:51-99 | withdrawals matched to distinct deposits of equal amount sum to at most the deposits |
| Solvency.VaultCovers | workspace/ptrans/programs/ptrans/src/instructions/withdraw.rs:55-58 | the vault holds the amount of every withdrawal that spends one more deposit |
| Solvency.HonestRunIsSolvent | workspace/ptrans/programs/ptrans/src/instructions/withdraw.rs:51-99 | every honest run keeps the matching of withdrawals to deposits |
| Solvency.Solvency | workspace/ptrans/programs/ptrans/src/instructions/withdraw.rs:51-99 | after every honest run: the matching, withdrawn at most deposited, and the vault holds the difference |
| Solvency.WithdrawalExact | workspace/ptrans/programs/ptrans/src/instructions/withdraw.rs:51-75 | accepted if and only if all checks other than the vault check pass |
| Solvency.HonestRootsDistinct | workspace/ptrans/app/frontend/src/composables/useDeposit.ts:41-61 | rebuilt roots of different prefixes differ and none is the empty root |
| Solvency.HonestRootWindow | workspace/ptrans/programs/ptrans/src/state.rs:15-22 | the root after deposit m is known if and only if at most nine deposits followed |
| Solvency.HonestRootIsNew | workspace/ptrans/programs/ptrans/src/instructions/deposit.rs:31-33 | the root of an honest deposit differs from the current one and from the empty root |
| Solvency.DepositExact | workspace/ptrans/programs/ptrans/src/instructions/deposit.rs:28-43 | an honest deposit is refused only for a full tree, a small amount, missing funds or the vault as payer |
| Database.RepeatedInserts | workspace/ptrans/app/backend/src/db.rs:46-137 | a repeated nullifier insert changes nothing; a repeated deposit insert always adds one more root row and nothing else |
| Database.InsertsKeepRows | workspace/ptrans/app/backend/src/db.rs:46-137 | whatever a repeated insert brings, rows that are there keep their values, the new key gets its own, and nothing else changes but the root row |
| Database.OrderedRowsOfTable | workspace/ptrans/app/backend/src/db.rs:140-152 | a gap-free table is returned as the list it holds |
| Database.OrderedRowsList | workspace/ptrans/app/backend/src/db.rs:140-152 | for every table, gaps or not: as many rows as items, each an item, leaf indices strictly ascending |
| Database.EveryItemListed | workspace/ptrans/app/backend/src/db.rs:140-152 | and every item is a row |
| Database.Db.SaveDeposit | workspace/ptrans/app/backend/src/db.rs:46-86 | the commitment is inserted unless its index is taken; a root row is always added |
| Database.Db.SaveNullifier | workspace/ptrans/app/backend/src/db.rs:113-137 | inserted unless present |
| Database.Db.CommitmentExists | workspace/ptrans/app/backend/src/db.rs:100-108 | whether the leaf index is taken |
| Database.Db.IsNullifierUsed | workspace/ptrans/app/backend/src/db.rs:89-97 | whether the nullifier has a row |
| Database.Db.GetCommitments | workspace/ptrans/app/backend/src/db.rs:140-152 | all rows of the table, each once, in the order of their leaf index |
| Pagination.TakeNew | workspace/ptrans/app/backend/src/indexer.rs:97-112 | the entries of a page before the cursor, and whether the cursor was met |
| Pagination.CollectPage | workspace/ptrans/app/backend/src/indexer.rs:67-122 | one page extends the collected prefix without gap or repeat, or finds the cursor, or finds nothing, as a page of size 0 always does |
| Pagination.Paginate | workspace/ptrans/app/backend/src/indexer.rs:63-123 | exactly the newest min(new, full pages) signatures in order; the cursor is met exactly when it is on a fetched page |
| Pagination.EntriesIsProduct | workspace/ptrans/app/backend/src/indexer.rs:67-71 | full pages hold maxPages times pageSize entries |
| Indexer.NewerThan | workspace/ptrans/app/backend/src/indexer.rs:103-109 | with the cursor on a transaction exactly the later ones are new |
| Indexer.Indexer.ProcessLine | workspace/ptrans/app/backend/src/indexer.rs:222-291 | insert unless present, then the tree update whose failure is only logged; nothing if the database refuses the query |
| Indexer.Indexer.ProcessTransaction | workspace/ptrans/app/backend/src/indexer.rs:179-295 | the lines of a transaction in order, up to an error; none, without an error, if the log messages are missing |
| Indexer.Indexer.ProcessOldestFirst | workspace/ptrans/app/backend/src/indexer.rs:140-157 | each collected transaction once, oldest first, as far as it goes; the last one without an error is remembered |
| Indexer.Indexer.Tick | workspace/ptrans/app/backend/src/indexer.rs:55-177 | the batch behind the cursor within the page limit is processed, then the cursor is stored if Redis takes it; nothing if a page could not be fetched |
| Indexer.SyncRows | workspace/ptrans/app/backend/src/main.rs:318-330 | issues the writes of the missing rows up to the first that fails |
| Indexer.Startup | workspace/ptrans/app/backend/src/main.rs:282-330 | issues the writes of initialisation and sync up to the first that fails |
| LogImage.ReplayIgnored | workspace/ptrans/app/backend/src/indexer.rs:229-274 | a line processed before, or repeating what was, changes nothing |
| LogImage.NextLineMirrored | workspace/ptrans/app/backend/src/indexer.rs:222-291 | the next line keeps the database the exact image of what the log says, whatever happens to the tree |
| LogImage.NextLineTree | workspace/ptrans/app/backend/src/indexer.rs:240-263 | the tree stays usable unless leaf 0 meets a lost store, and complete if it was and Redis refused nothing |
| LogImage.StretchMirrored | workspace/ptrans/app/backend/src/indexer.rs:144-157 | any stretch of lines that starts no later than the first unseen one leaves the database the image of the log, none missed |
| LogImage.StretchTree | workspace/ptrans/app/backend/src/indexer.rs:144-157 | and the tree follows it, unless the stretch brings leaf 0 to a lost store |
| LogImage.StretchSpoils | workspace/ptrans/app/backend/src/tree.rs:105-194 | in that case the store ends with a root and without empty hashes |
| IndexerFaults.BatchIsLines | workspace/ptrans/app/backend/src/indexer.rs:144-157 | whatever fails in a batch, its effect is that of the lines it handled, in order |
| IndexerFaults.NewestIsLastSuccess | workspace/ptrans/app/backend/src/indexer.rs:142-157 | the remembered signature is that of the last transaction that did not fail |
| IndexerFaults.MissingLogsPassed | workspace/ptrans/app/backend/src/indexer.rs:200-203 | a tick with one transaction answered without log messages changes nothing but the cursor, which moves past it |
| IndexerFaults.FailurePartlyDone | workspace/ptrans/app/backend/src/indexer.rs:144-157 | one that fails after n of its lines: those are processed and the cursor stays |
| IndexerFaults.SuccessAllDone | workspace/ptrans/app/backend/src/indexer.rs:144-163 | one that goes through: all lines are processed and the cursor moves if Redis takes it |
| IndexerFaults.FailureRevisitedExactly | workspace/ptrans/app/backend/src/indexer.rs:144-163 | a transaction of a tick is looked at again if and only if neither it nor a newer one of the tick succeeded |
| Batches.OrderlyBatch | workspace/ptrans/app/backend/src/indexer.rs:144-157 | if what fails is followed by no success, the handled lines are a prefix of the batch that reaches its last success |
| BackendSteps.TickIsAction | workspace/ptrans/app/backend/src/indexer.rs:55-177 | the tick step of the state machine is the effect proved for the tick method |
| BackendSteps.TickKeepsLog | workspace/ptrans/app/backend/src/indexer.rs:55-177 | a tick, complete or cut short anywhere, keeps the database the image of the log and the cursor behind nothing unprocessed, whatever the tree holds |
| BackendSteps.TickIsSound | workspace/ptrans/app/backend/src/indexer.rs:55-177 | it leaves database, tree and cursor in order if and only if it does not spoil a lost store |
| BackendSteps.RestartIsSound | workspace/ptrans/app/backend/src/main.rs:282-347 | a restart keeps them in order, and one that completes leaves the complete tree of the database |
| BackendSteps.SpoiltForGood | workspace/ptrans/app/backend/src/main.rs:289-304 | a spoilt store stays spoilt over every tick and every restart |
| RedisLoss.FirstLeaf | workspace/ptrans/app/backend/src/tree.rs:116-188 | leaf 0 added to an empty store, stopped anywhere: no root before write depth + 2, afterwards a root folded with empty leaves over a store without empty hashes |
| RedisLoss.BareRootExact | workspace/ptrans/app/backend/src/tree.rs:143-150 | that root is the right one if and only if the depth is at most 1 |
| IndexerRuns.BackendRunIsSound | workspace/ptrans/app/backend/src/indexer.rs:41-53 | over every schedule that keeps up and every log that skips no leaf index the database is the image of the log, and the node is sound if and only if no tick spoiled the store since Redis was last lost |
| IndexerRuns.GuardedNeverSpoilt | workspace/ptrans/app/backend/src/main.rs:282-304 | never, if Redis is lost only while the process is down or the database has a row |
| IndexerRuns.KeepsUpWithinLimit | workspace/ptrans/app/backend/src/indexer.rs:67-123 | a tick to which at most the page limit is new leaves nothing behind |
| IndexerRuns.RunWithinLimit | workspace/ptrans/app/backend/src/indexer.rs:41-53 | so a schedule of such ticks keeps up throughout |
| IndexerRuns.FaultFreeTick | workspace/ptrans/app/backend/src/indexer.rs:144-163 | without faults the tick catches up and a complete tree stays complete |
| IndexerRuns.FaultFreeRun | workspace/ptrans/app/backend/src/indexer.rs:41-53 | and so over any list of ticks, each caught up with what it could see |
| IndexerRuns.CatchUp | workspace/ptrans/app/backend/src/main.rs:282-363 | a completed restart and one tick without faults index the whole ledger |
| HalfWritten.AddTraced | workspace/ptrans/app/backend/src/tree.rs:116-123 | the next row starts its addition on a complete tree and leaves a half-written one alone |
| HalfWritten.RunExplained | workspace/ptrans/app/backend/src/indexer.rs:240-263 | over every schedule the tree of a running backend has no root, or is a complete one of the first rows with a prefix of the writes of one more leaf |
| FailingSchedules.LossBeforeFirstLeaf | workspace/ptrans/app/backend/src/tree.rs:105-194 | Redis lost after the first start and before the first deposit: the tree counts the row, its root is wrong for depth 2 and more, and the node is not sound |
| FailingSchedules.FailureLeavesGap | workspace/ptrans/app/backend/src/indexer.rs:144-163 | two deposits of which the older fails: the database is left with the newer alone and the next tick finds nothing new |
| ConcurrentProof.AddLeafIsLevels | workspace/ptrans/app/backend/src/tree.rs:105-194 | on a complete tree the writes are the levels of the next tree from the bottom up, then its root and its size |
| ConcurrentProof.UpdateAt | workspace/ptrans/app/backend/src/tree.rs:135-188 | after k writes exactly the levels below k are those of the next tree, and the root from write depth + 2 on |
| ConcurrentProof.MeetOnce | workspace/ptrans/app/backend/src/tree.rs:211-232 | the paths of two leaves are siblings at exactly one level |
| ConcurrentProof.MixedVerifies | workspace/ptrans/app/backend/src/tree.rs:202-241 | siblings from before and after the addition of a leaf lead to the old or the new root exactly if the meeting level is on its side |
| ConcurrentProof.ReadDuringUpdate | workspace/ptrans/app/backend/src/tree.rs:202-241 | a proof read during the update, every level and the root at any moment, verifies if and only if the level where the two paths meet and the root were read on the same side of the update |
| ConcurrentProof.ReadAtOnce | workspace/ptrans/app/backend/src/tree.rs:202-241 | read at one moment it is wrong exactly from the write of that level until the write of the root |
| ChainLog.RunIsLogged | workspace/ptrans/programs/ptrans/src/instructions/deposit.rs:45-56 | the events of every run count the leaves from 0, never repeat a nullifier, and tell all deposits and records |
| Client.FindLeaf | workspace/ptrans/app/frontend/src/composables/useWithdraw.ts:103-111 | the first position of the commitment, or nothing if it is not there |
| WholeSystem.ServedIsPrefix | workspace/ptrans/app/backend/src/db.rs:140-152 | what is served are the first commitments on chain with one root row for each, whatever the tree holds |
| WholeSystem.InStepTree | workspace/ptrans/app/backend/src/main.rs:306-347 | a sound backend whose tree counts every row stores exactly the tree of what it serves |
| WholeSystem.ClientDepositHonestExactly | workspace/ptrans/app/frontend/src/composables/useDeposit.ts:41-61 | the root the client sends extends all deposits on chain if and only if the backend serves all of them |
| WholeSystem.ClientDepositExact | workspace/ptrans/app/frontend/src/composables/useDeposit.ts:87-125 | the deposit of a client that is served everything is accepted exactly if there is room, the amount is large enough and the depositor has it; the depositor pays |
| WholeSystem.TreeRootIsLatestRow | workspace/ptrans/app/backend/src/main.rs:185-215 | after any list of ticks without faults, in an honest run, the tree counts every row, there are as many root rows, and the root endpoint answers the latest of them whether or not Redis answers |
| Api.HandleRoot | workspace/ptrans/app/backend/src/main.rs:185-215 | the stored root, or the latest root row if Redis fails or has none |
| Api.EndpointsAgree | workspace/ptrans/app/backend/src/main.rs:185-249 | the root that comes with a proof is the one the root endpoint answers |
| WholeSystem.RootOfCompleteTree | workspace/ptrans/app/backend/src/main.rs:189-191 | with a complete tree the root endpoint answers the root of everything served, the empty tree included |
| WholeSystem.RootWithoutTree | workspace/ptrans/app/backend/src/main.rs:193-215 | without a stored root, or without Redis, it answers the root of everything served, or nothing if that is nothing |
| WholeSystem.RootWhileRunning | workspace/ptrans/app/backend/src/main.rs:185-215 | its answer in every state of a running backend, half-written trees included |
| WholeSystem.BuildsWhileRunning | workspace/ptrans/app/frontend/src/composables/useWithdraw.ts:93-116 | the client of a running backend can build a withdrawal if and only if its commitment is served and there is a root |
| Api.HandleProof | workspace/ptrans/app/backend/src/main.rs:217-249 | the stored proof, or nothing if the root is missing or empty |
| Client.VerifiesExactly | workspace/ptrans/app/frontend/src/composables/useWithdraw.ts:93-143 | the client's proof verifies if and only if the recipient's key is below the frontend's modulus and the path leads to the root |
| Client.WithdrawalForExact | workspace/ptrans/programs/ptrans/src/instructions/withdraw.rs:40-109 | against the root after n deposits nothing else can refuse it than a spent note, an old root, a large key or a path that leads elsewhere |
| Client.PaidMoves | workspace/ptrans/programs/ptrans/src/instructions/withdraw.rs:77-109 | an accepted withdrawal moves the note's amount from the vault to the recipient and records it |
| Client.WithdrawalFromPrefix | workspace/ptrans/app/frontend/src/composables/useWithdraw.ts:93-143 | one withdrawal against a tree that holds exactly the first m deposits: accepted if and only if unspent, in the window, below the modulus, and among those m |
| Client.WithdrawalDuringUpdate | workspace/ptrans/app/frontend/src/composables/useWithdraw.ts:93-143 | one withdrawal whose proof was read while a leaf was being added, later rows being served or not: accepted if and only if unspent, in the window, below the modulus, counted by the root, and the deciding level was read on the side of the root |
| Client.WithdrawalFromHalfWritten | workspace/ptrans/app/backend/src/indexer.rs:240-263 | the same for a store in which an update stopped after k writes: the leaf verifies unless k lies between the write of the deciding level and the write of the root |
| WholeSystem.EndToEnd | workspace/ptrans/programs/ptrans/src/instructions/withdraw.rs:40-109 | with a tree complete for the first m served commitments: accepted if and only if the commitment is among them, the note is unspent, at most nine deposits are missing from the tree, and the key is below the frontend's modulus |
| WholeSystem.EndToEndInStep | workspace/ptrans/programs/ptrans/src/instructions/withdraw.rs:40-109 | the same for a tree that counts every row and was never spoiled |
| WholeSystem.RunningTree | workspace/ptrans/app/backend/src/indexer.rs:240-263 | what the tree of a running backend is after any schedule, in terms of what is served |
| WholeSystem.EndToEndRunning | workspace/ptrans/programs/ptrans/src/instructions/withdraw.rs:40-109 | for every state of a running backend, half-written trees and lost ones included: the exact condition under which the client's withdrawal is accepted |
| WholeSystem.BackendCatchesUp | workspace/ptrans/app/backend/src/main.rs:282-363 | from any sound node one completed restart and one tick without faults put every deposit in the tree |
| RevertedEvents.RealLeafIgnored | workspace/ptrans/app/backend/src/indexer.rs:229-265 | after a deposit event for a free leaf index the real deposit of that index changes nothing |
| RevertedEvents.StrayLine | workspace/ptrans/app/backend/src/indexer.rs:179-292 | one more line anywhere in the log takes the next leaf or a nullifier for good and disturbs nothing else |
| RevertedEvents.StrayFits | workspace/ptrans/app/backend/src/indexer.rs:179-292 | the log with it is still one the results about runs cover |
| RevertedEvents.HarmlessExactly | workspace/ptrans/app/backend/src/indexer.rs:179-292 | the database comes out the same if and only if the line is known already or is the very one that takes its place later |
| RevertedEvents.WrongLeafNeverPaid | workspace/ptrans/programs/ptrans/src/instructions/withdraw.rs:60-75 | no withdrawal that names the root of a tree with a leaf other than the chain's is accepted |
| RevertedEvents.RevertedDepositDecides | workspace/ptrans/app/backend/src/indexer.rs:222-267 | with one reverted deposit of another non-empty commitment in the log, withdrawals are decided as without it until the tree reaches its leaf; from then on none is accepted |

## Left out

- Poseidon2, Groth16 and the verifier program: free terms for the hash, and a verifier that accepts exactly the public inputs a proof was made for; whether a real verifier reduces an input once more is not modelled.
- HTTP, RPC, JSON, hex, base58, base64 and the database drivers: maps and tables; `padStart` and the parsing of stored text are not modelled, values are already 32 bytes. Decoding of the transaction log is by offsets on bytes, the indexer itself runs on decoded payloads.
- Proofs read across more than one tree update, or while startup runs: `ReadDuringUpdate` is about one `add_leaf` on a complete tree.
- Redis data lost in the middle of a tick or of a tree update, and losses of some keys only: the schedules lose all keys between two ticks.
- Ticks in which a transaction fails and a newer one succeeds, or a transaction with log lines is answered without them: `BackendRunIsSound` asks that every success is complete and that what fails is followed by failures only (`Orderly`); `FailureRevisitedExactly` and `FailureLeavesGap` say what happens otherwise.
- Two depositors who use the same list of commitments: an honest run has each accepted root rebuilt from all earlier commitments; the program itself does not check it.
- Signature lists that change while a tick pages through them, and signature entries without a signature.
- Log lines of other programs: event tags are not looked at, so the log is assumed to hold this program's events, also those of reverted transactions, and none that skips a leaf index.
- Pages: a backlog longer than the page limit is left behind by the code; runs assume that each tick keeps up, and `RunWithinLimit` gives the usual reason.
- Rent, signatures, program addresses, timestamps and compute limits: platform behaviour. Creating a record that exists fails; the vault cannot sign; lamport balances are unbounded numbers; transfers outside the program are not modelled.
- The API cache of commitments with its 30-second lifetime and its invalidation, rate limits, metrics, configuration, logging, the prover wrapper and generated clients.
- Vue components, wallets, note storage and the conversion from SOL to lamports.
- Pool.PoolProgram.HandleWithdraw: hands the verifier a record of field terms instead of the bytes of `encode_public_inputs`, because free terms have no 32-byte encoding; `LayoutDeterminesInputs` is the informal link.
- Depths above 30: `1 << depth` in the merkle service wraps there.
