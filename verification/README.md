# Optimistic consensus, a key search on the GPU, a diff and an address codec

A Dafny model of the code in this repository that is hardest to get right, with
proofs of what it promises. `dafny verify dfyconfig.toml` checks all of it.

**The consensus DAG** (`src/dag.rs`, `src/event.rs`, `src/bin/federation.rs`). A
replica buffers events whose parents are missing, releases them through a
worklist, spreads "seen by" marks to ancestors with a walk that stops early,
caches depths and derives a canonical order. `Dags.Dag` is that class. The main
results: the six maps are a function of what was delivered, so replicas converge
whatever the order and repetition; the accepted events are exactly the least set
closed under having all parents; over every run of many daemons, canonical
events common to two views come in one order, and the order is only ever added
to; acking the tips covers the whole DAG.

**The 256-bit field, the curve and the search** (`demo/krackpot/src`). The limb
routines are modelled with their 32-bit wrap-around and proved exact; the
pseudo-Mersenne reduction yields the residue of any 512-bit input; the Jacobian
formulas refine the affine reference in every case; one batch inversion serves
a whole thread; a dispatch scans each key of its interval once, and the CPU
rebuilds exactly those keys from the hits. `Coordinator.SearchCoordinator` puts
that together over whole runs, through recalibrations, cached tables, device
losses and recoveries.

**A diff, a blame and Base58** (`demo/git`, `demo/krackpot/src/reference`). The
line diff spells both texts and is as short as any script; blame follows each
line to the version that introduced it; Base58 and P2PKH addresses round trip in
both directions, errors included.

## What is assumed

- An event id determines the event (NIP-01, "Events and signatures"). Only the
  results about several deliveries or several replicas use it, and
  `Consensus.ConvergenceNeedsIds` shows that they need it. That accepted events
  form no cycle is proved.
- The modulus is prime. `P` itself is not proved prime, so the results about
  residues hold for every prime above 2, and those about limbs that need no
  inverse hold for `P` outright.
- The group law: the multiples of G exist, the reference addition adds them and
  they vanish at the multiples of the order (`Scalars.Setting`).
  `Scalars.SettingIsMet` shows that this can be met, and `Cusp.SettingOfOrderP`
  with order p modulo every prime p above 2. The coordinator also takes the order
  to exceed 48 * 2^21, as that of secp256k1 does.
- On a device that is lost no dispatch completes, and nothing written takes effect.
- SHA-256 is any function to 32 bytes, and the hash of a public key any function
  of the affine point.

## What the code does otherwise than documented

- An event is canonical for four fifths of the participants (src/dag.rs:7-8),
  not for the majority that the README of the repository (lines 9-16) and
  PLAN.md:41-47 describe. The two agree only for federations of at most two
  members (`Consensus.QuorumIsNotMajority`); two of three are a majority but no
  quorum (`Consensus.TwoOfThree`).
- The coordinator says that every key of the range is equally likely to fall in
  a dispatch (demo/krackpot/src/coordinator.js:378-382). `Draws.UniformIff` gives
  the exact condition for every range. For keys below the group order it is that
  the size asked for is a whole number of workgroups (a multiple of 64 within the
  first) and at most the start of the range (`Draws.UniformForKeys`). Two inputs
  that fail: 3073 keys, where a dispatch covers 6144 (`Draws.SlackAtLowEdge`), and
  a range that reaches past the order, where draws are skipped
  (`Draws.SkippedDraw`).
- It says that it gives up on a device that cannot run even a minimal dispatch
  (coordinator.js:414-415). With j losses in a row since the last completed
  dispatch, and c the size that one left, a minimal dispatch was among the losses
  exactly when c < 65 * 8^(j-1) (`Pacing.GivesUpAtMinimumIff`). Two runs that fail:
  3072 keys, one loss and a recovery that fails (`Pacing.GivesUpUntried`), and five
  losses from 266240 keys on (`Pacing.FiveLosses`).
- It says that an overlong dispatch halves the next (coordinator.js:314-315). The
  size asked for is halved exactly from 128 keys on (`Sizing.OvershootHalvesIff`);
  100 becomes 64, and 10 grows to 64 (`Sizing.OvershootAt100`). The dispatch itself,
  rounded up to units of 64 keys, or of 3072 for sizes above that, has at most half
  the keys exactly when the overlong one had an even number of units, or was asked
  for just one key into its last unit (`Sizing.OvershootHalvesDispatchIff`): 9216
  keys, asked for as 6146, are followed by 6144 (`Sizing.OvershootAt6146`).
- It says that negative first keys are fine (coordinator.js:380). A thread that
  meets the point at infinity hashes (0, 0) for all its keys and so misses every one
  of them (`Misses.BlockedIff`, `Dispatch.ScannedIff`). A dispatch misses no key of
  the searched range exactly when the thread of each multiple of the order in it holds
  no other key of the range (`Misses.NoneMissedIff`): for private keys, when the
  thread that meets 0 ends by the start of the range, and the one that meets the order
  begins past its end (`Misses.NoneMissedForKeys`). No draw misses a key exactly when
  the range ends a thread's keys below the order, and starts at or above the number of
  keys of a thread, or the size asked for less one, or one short of the former for a
  size asked for below twice that number (`Misses.EveryDrawFineIff`). So the claim
  holds at every size for ranges from key 48 to 48 keys below the order. An input that
  fails: keys 1 to 5000, the default size, the first key -1; the first key -47 misses
  nothing (`Misses.TwoNegativeDraws`).
- Each daemon acknowledges the messages, says the README of the repository (lines
  13-15). A chat message that arrives before its parents is buffered, and no ack
  answers it when it is released later. One heard for the first time is answered
  exactly when its parents are accepted already (`Unanswered.AnsweredIffReady`; for
  members with an event of their own above it, `Unanswered.AnsweredIff`), and at no
  later hearing (`Unanswered.OnlyFirstHearing`). A run that fails: a chat message, then
  its parent (`Unanswered.ReleasedUnanswered`). The acks to later messages still mark
  it (`Federation.AckMarksAll`).
- `point_double` and the reference differ exactly on points with y = 0
  (`JacobianRefines.DoubleRefines`, `JacobianRefines.ZeroYDiffers`), which no
  multiple of G is (`Scalars.NoZeroY`).

## Model

| member | source | states |
|---|---|---|
| `Dags.Dag.constructor` | src/dag.rs:32-46 | an empty replica satisfies the invariant of all six maps |
| `Dags.Dag.Insert` | src/dag.rs:53-78 | after every insert the whole invariant holds again and the delivered events are the old ones plus this one (first delivery of an id wins), which fixes the whole new state (`DagState.StateDetermined`); the result says duplicate, accepted or buffered, with the missing parents, exactly as the state before demands |
| `Dags.Dag.Wait` | src/dag.rs:69-72 | a buffered event is filed under each missing parent and nothing else moves |
| `Dags.Dag.InsertReady` | src/dag.rs:80-97 | accepting an event whose parents are accepted keeps depths, children and "seen by" exact |
| `Dags.Dag.MarkSeenByAncestors` | src/dag.rs:126-135 | the early-stopping walk terminates and marks exactly the event and all its ancestors |
| `Dags.Dag.ProcessUnblocked` | src/dag.rs:99-124 | the worklist terminates by (pending, worklist); afterwards no pending event has all its parents accepted and the waiting index is exact; nothing delivered is lost |
| `Dags.Dag.Release` | src/dag.rs:115-122 | releasing one buffered event keeps everything exact and puts on the worklist every event it may have freed |
| `Dags.Dag.IsCanonical` | src/dag.rs:149-154 | canonical means seen by more than the threshold of participants, each of whom authored the event or a descendant |
| `Dags.Dag.Tips` | src/dag.rs:163-170 | the tips are exactly the accepted events that no accepted event names as a parent |
| `Dags.Dag.MissingParents` | src/dag.rs:212-214 | the missing parents are exactly the unaccepted ids that some pending event names |
| `Dags.Dag.CanonicalOrder` | src/dag.rs:172-186 | lists exactly the canonical events, each once, depths never falling and equal depths by ascending id |
| `Dags.Missing` | src/dag.rs:60-62 | lists exactly the parents that are not accepted |
| `Dags.MissingConcat` | src/dag.rs:60-62 | the missing parents of a list are those of its parts in turn, repeats included |
| `Dags.ComputeDepth` | src/dag.rs:137-143 | the depth is one more than the greatest parent depth, and 0 without parents |
| `Dags.SortByKey` | src/dag.rs:180-183 | the same ids, each pair by lesser depth, or by lesser id at one depth |
| `DagState.AcceptedIsLeastClosed` | src/dag.rs:53-124 | the accepted events are the least set closed under "delivered and all parents in the set", cycles or not |
| `DagState.CyclicStaysPending` | src/dag.rs:60-76 | a delivered event on a cycle, or naming itself, stays pending forever |
| `DagState.DepthIsLongestChain` | src/dag.rs:137-143 | the cached depth of an event is the length of its longest chain of ancestors |
| `Consensus.DepthFits` | src/dag.rs:137-143 | a depth is below the number of accepted events, so 64 bits hold it |
| `DagState.DepthAgrees` | src/dag.rs:137-143 | an event accepted in two views that agree on shared ids has one depth |
| `DagState.AcceptedGrows` | src/dag.rs:53-124 | what is accepted stays accepted when more is delivered |
| `DagState.StateDetermined` | src/dag.rs:20-29 | all six maps are a function of the participants and the delivered events |
| `DagSteps.SeenOneMore` | src/dag.rs:91-96 | marking the author on the new event and its ancestors keeps "seen by" equal to authorship of a descendant |
| `DagSteps.WalkEnd` | src/dag.rs:126-135 | stopping at an ancestor already marked loses nothing, because marks are closed under parents |
| `Consensus.Convergence` | src/dag.rs:53-124 | replicas delivered the same events, in any order and with any repetition, end in the same state |
| `Consensus.ConvergenceNeedsIds` | src/dag.rs:56-58 | two events under one id, delivered in the two orders, leave different states: the id assumption cannot be dropped |
| `Consensus.QuorumIsFourFifths` | src/dag.rs:48-51 | more than the threshold means at least one and at least four fifths of the participants |
| `Consensus.CanonicalIff` | src/dag.rs:149-154 | an event is canonical exactly when the participants that wrote it or an accepted descendant are at least one and at least four fifths |
| `Consensus.QuorumIsNotMajority` | src/dag.rs:7-8 | the code quorum and the documented majority agree exactly for federations of at most two |
| `Consensus.TwoOfThree` | src/dag.rs:48-51 | an instance: two of three members are a majority but no quorum |
| `Consensus.QuorumsOverlap` | src/dag.rs:48-51 | any two quorums share at least three fifths of the participants, and at least one |
| `Consensus.AncestorsSeen` | src/dag.rs:126-135 | whoever has seen an event has seen its ancestors; canonical sets are closed under ancestors |
| `Consensus.TipsCover` | src/dag.rs:163-170 | every accepted event is a tip or an ancestor of one |
| `Consensus.SortedUnique` | src/dag.rs:180-183 | there is only one sorted listing of a set of events |
| `Consensus.AncestorsFirst` | src/dag.rs:172-186 | in the canonical order every proper ancestor of an event comes before it |
| `Consensus.DepthThenId` | src/dag.rs:180-183 | along a canonical order depths never fall, and ids ascend within a depth |
| `Consensus.FirstIff` | src/dag.rs:180-183 | of two canonical events the first is exactly the one of lesser depth, or of lesser id at one depth |
| `Consensus.RootsById` | src/dag.rs:180-183 | canonical events without parents come in ascending id |
| `Consensus.OrderGrows` | src/dag.rs:172-186 | after any further deliveries the old canonical order is a subsequence of the new one |
| `Consensus.SeenGrows` | src/dag.rs:126-154 | marks and canonicity are never taken back |
| `Consensus.Agreement` | src/dag.rs:137-186 | two views that agree on shared ids order their common canonical events identically |
| `Consensus.SharedEventAgrees` | src/dag.rs:137-143 | an event accepted in two such views has the same ancestors and depth in both |
| `Federation.HandleAll` | src/bin/federation.rs:91-129 | a daemon fed any list of events holds the state that the list determines |
| `Federation.HandleEvent` | src/bin/federation.rs:91-129 | an ack is signed exactly for a chat message accepted at once while some tip lacks the mark; every event goes through one insert |
| `Federation.MaybeAck` | src/bin/federation.rs:131-171 | a member signs an ack over all tips exactly when some tip lacks its mark |
| `Federation.SilentIffAllSeen` | src/bin/federation.rs:131-151 | a member keeps silent exactly when it has seen every accepted event |
| `Federation.AckMarksAll` | src/bin/federation.rs:137-154 | wherever the ack is accepted, everything its author held when signing is accepted and marked by the author |
| `Federation.QuorumOfAcks` | src/bin/federation.rs:131-171 | such acks from four fifths of the members make an event canonical wherever they are accepted |
| `Federation.RunQuorum` | src/bin/federation.rs:131-171 | acks signed at any steps of a run by four fifths of the members, each while holding an event, make it canonical in every daemon that accepts them |
| `Federation.RunKeeps` | src/bin/federation.rs:91-129 | every state of every run of many daemons satisfies the invariant and extends the earlier ones |
| `Federation.RunAgreement` | src/bin/federation.rs:91-129 | at any two moments of any run, any two daemons order their common canonical events identically |
| `Federation.RunOrderGrows` | src/bin/federation.rs:91-129 | over a run the canonical order of a daemon is only ever added to |
| `Federation.RunConvergence` | src/bin/federation.rs:91-129 | daemons of one run that have heard the same events are in the same state |
| `Federation.RunAckMarksAll` | src/bin/federation.rs:131-171 | an ack signed at any step of a run marks, wherever it is accepted, everything its author had accepted |
| `Federation.PublishedOnce` | src/bin/federation.rs:91-129 | an id names the same event to every daemon of a run |
| `Unanswered.AnsweredIff` | src/bin/federation.rs:99-151 | a member answers exactly a chat message heard for the first time with all parents accepted, while some accepted event lacks its mark |
| `Unanswered.AnsweredIffReady` | src/bin/federation.rs:99-128 | a chat message heard for the first time is answered exactly when its parents were accepted already, unless the member has an event of its own above it |
| `Unanswered.OnlyFirstHearing` | src/bin/federation.rs:99-128 | along a run an event is answered at its first hearing or never |
| `Unanswered.ReleasedUnanswered` | src/bin/federation.rs:91-171 | an instance: a chat message before its parent, then the parent; both end accepted, the member has something to acknowledge, and neither call signs |
| `Limbs.MulWide` | demo/krackpot/src/shaders/bigint.js:89-102 | `mul32` gives the full 64-bit product from 16-bit halves under 32-bit wrap-around |
| `Limbs.OrIsAdd` | demo/krackpot/src/shaders/bigint.js:99 | joining the halves with OR is adding them |
| `Limbs.AddCarry` | demo/krackpot/src/shaders/bigint.js:62-67 | two detected carries add to at most one and make the limb sum exact |
| `Limbs.SubBorrow` | demo/krackpot/src/shaders/bigint.js:78-83 | the same for borrows |
| `Limbs.Accumulate` | demo/krackpot/src/shaders/bigint.js:111-119 | multiply-accumulate with carry is exact and the carry word never overflows |
| `BigInt.U256AddRaw` | demo/krackpot/src/shaders/bigint.js:58-70 | sum and carry are the exact sum |
| `BigInt.U256SubRaw` | demo/krackpot/src/shaders/bigint.js:74-86 | difference and borrow are the exact difference, with borrow exactly when a < b |
| `BigInt.U256Geq` | demo/krackpot/src/shaders/bigint.js:42-52 | the limb comparison decides a >= b |
| `BigInt.U256Mul` | demo/krackpot/src/shaders/bigint.js:105-124 | the schoolbook loops give the exact 512-bit product |
| `BigInt.MulRow` | demo/krackpot/src/shaders/bigint.js:109-121 | one row adds x times b at its place, and its last carry fits |
| `BigInt.FirstFold` | demo/krackpot/src/shaders/bigint.js:133-165 | the first fold is lo + hi * C exactly: no carry leaves the ten limbs |
| `BigInt.Ripple` | demo/krackpot/src/shaders/bigint.js:188-193 | a carry rippled until it dies adds its weight exactly while the buffer has room |
| `BigInt.AddProductAt` | demo/krackpot/src/shaders/bigint.js:176-194 | adding a 64-bit product at a limb is exact while the buffer has room |
| `BigInt.FoldOnce` | demo/krackpot/src/shaders/bigint.js:169-242 | one pass adds the overflow times C, exactly |
| `BigInt.FoldShrinks` | demo/krackpot/src/shaders/bigint.js:167-169 | each pass keeps the residue; two passes leave limbs 8 and 9 zero, so the cap of four never cuts a fold short |
| `BigInt.ModP` | demo/krackpot/src/shaders/bigint.js:132-253 | any 512-bit input reduces to its residue in [0, p), with at most two of the four passes |
| `BigInt.ReduceOnce` | demo/krackpot/src/shaders/bigint.js:247-252 | one conditional subtraction finishes any 256-bit value |
| `Field.U256Eq` | demo/krackpot/src/shaders/bigint.js:25-31 | the OR of XORs decides equality of values |
| `Field.FpAdd` | demo/krackpot/src/shaders/bigint.js:255-263 | right exactly when the sum is below 2p |
| `Field.FpSub` | demo/krackpot/src/shaders/bigint.js:265-272 | right exactly when the difference is in [-p, p) |
| `Field.FpMul` | demo/krackpot/src/shaders/bigint.js:274-277 | the product mod p of any two 256-bit values |
| `Field.FpNeg` | demo/krackpot/src/shaders/bigint.js:306-310 | the negation mod p, exactly up to p |
| `Field.FpInv` | demo/krackpot/src/shaders/bigint.js:285-304 | square and multiply over the limbs of p - 2 gives a^(p-2) mod p |
| `Field.PowLimbs` | demo/krackpot/src/shaders/bigint.js:291-303 | the two loops raise to the power that any eight limbs spell |
| `Field.InvWord` | demo/krackpot/src/shaders/bigint.js:293-302 | the 32 steps of one limb keep result * base^(rest of the exponent) |
| `Packing.BigIntToLimbsLE` | demo/krackpot/src/reference/secp.js:88-95 | the limbs spell the number mod 2^256, negative numbers included |
| `Packing.LimbsLEToBigInt` | demo/krackpot/src/reference/secp.js:97-101 | the number that the limbs spell |
| `Packing.RoundTrip` | demo/krackpot/src/reference/secp.js:88-101 | limbs and numbers round trip exactly for 0 <= n < 2^256 |
| `Modular.ModInvLoop` | demo/krackpot/src/reference/secp.js:16-27 | the loop of the extended Euclidean algorithm computes its recursion |
| `Modular.ModInvCorrect` | demo/krackpot/src/reference/secp.js:16-27 | it returns the inverse in [0, m) for coprime arguments and fails exactly for the others |
| `Fermat.FermatLittle` | demo/krackpot/src/shaders/bigint.js:283-284 | Fermat's little theorem |
| `Fermat.InversesAgree` | demo/krackpot/src/reference/secp.js:16-27 | for a prime the Euclidean and the Fermat inverse agree, and the former fails exactly at 0 |
| `Curve.ReadBack` | demo/krackpot/src/shaders/secp256k1.js:132-142 | `jacobian_to_affine` reads back exactly the affine point that the coordinates represent |
| `JacobianRefines.DoubleRefines` | demo/krackpot/src/shaders/secp256k1.js:43-55 | `point_double` read back is the reference addition of a point to itself, except at y = 0, where the reference throws and the shader gives infinity |
| `JacobianRefines.ZeroYDiffers` | demo/krackpot/src/shaders/secp256k1.js:43-55 | an instance: at (x, 0) the reference throws and the shader gives infinity |
| `JacobianRefines.DoubleOfZeroY` | demo/krackpot/src/shaders/secp256k1.js:43-55 | with y = 0 the doubling gives Z = 0 |
| `JacobianRefines.DoubleDefined` | demo/krackpot/src/reference/secp.js:35-37 | the reference doubles a point exactly when y is not 0 |
| `JacobianRefines.AddRefines` | demo/krackpot/src/shaders/secp256k1.js:64-94 | `point_add_mixed` read back is the reference `pointAdd` in every case: infinity, equal, opposite, generic; the one exception is doubling a point with y = 0, which the reference refuses |
| `JacobianRefines.AddDistinct` | demo/krackpot/src/shaders/secp256k1.js:84-93 | for different x the result is the chord point and Z stays nonzero |
| `CurveLimbs.PointDoubleLimbs` | demo/krackpot/src/shaders/secp256k1.js:43-55 | the limb routine computes the same doubling on reduced coordinates |
| `CurveLimbs.PointAddMixedLimbs` | demo/krackpot/src/shaders/secp256k1.js:64-94 | the limb routine computes the same addition on reduced coordinates |
| `Scalars.SettingIsMet` | demo/krackpot/src/reference/secp.js:29-44 | the group-law hypothesis is met, modulo any prime above 2, by a point of order 3 |
| `Cusp.SettingOfOrderP` | demo/krackpot/src/reference/secp.js:29-44 | modulo every prime p above 2 it is met with order p, hence with an order above any bound |
| `Cusp.ParametersAdd` | demo/krackpot/src/reference/secp.js:29-44 | the reference adds the points (1/k^2, 1/k^3) by their k, in every case of its addition |
| `Scalars.NoZeroY` | demo/krackpot/src/reference/secp.js:29-44 | no multiple of G has y = 0, so the reference doubles them all |
| `Scalars.MulMod` | demo/krackpot/src/reference/secp.js:46-56 | factors count mod the order |
| `Scalars.ScalarMul` | demo/krackpot/src/reference/secp.js:46-56 | the double-and-add loop from the low bit computes its recursion, exceptions included |
| `Scalars.ScalarMulCorrect` | demo/krackpot/src/reference/secp.js:46-56 | it is k * G for every integer k |
| `Scalars.ScalarMulG` | demo/krackpot/src/shaders/secp256k1.js:97-113 | the shader loop from the high bit gives the same multiple as the reference |
| `Scalars.ScalarMulGU32` | demo/krackpot/src/shaders/secp256k1.js:117-128 | the same for a 32-bit scalar |
| `Scalars.MulWord` | demo/krackpot/src/shaders/secp256k1.js:103-110 | 32 doublings and additions shift the factor up by one limb and add the limb |
| `ScalarLimbs.GeneratorLimbs` | demo/krackpot/src/shaders/secp256k1.js:14-21 | the limbs spell the generator of the reference, and it is on the curve |
| `ScalarLimbs.ScalarMulGLimbs` | demo/krackpot/src/shaders/secp256k1.js:97-113 | on limbs too, the result is the multiple of G |
| `ScalarLimbs.ScalarMulGU32Limbs` | demo/krackpot/src/shaders/secp256k1.js:117-128 | the same for a 32-bit scalar |
| `ScalarLimbs.JacobianToAffineLimbs` | demo/krackpot/src/shaders/secp256k1.js:132-142 | the limb routine computes the same read-back, infinity flagged |
| `ScalarLimbs.PublicPointLimbs` | demo/krackpot/src/shaders/secp256k1.js:97-142 | from the limbs of a scalar to those of its point, the shaders compute the reference `scalarMul` |
| `BatchInverse.PrefixPass` | demo/krackpot/src/shaders/search.js:132-136 | the first pass leaves the prefix products |
| `BatchInverse.BackwardPass` | demo/krackpot/src/shaders/search.js:137-145 | the backward pass over the reused array leaves the inverse of each element, or 0 everywhere if one vanishes |
| `BatchInverse.BatchInvert` | demo/krackpot/src/shaders/search.js:130-145 | the trick as a whole, for every batch size |
| `BatchInverse.TrickWorksIff` | demo/krackpot/src/shaders/search.js:130-145 | every slot is an inverse exactly when no element vanishes mod p |
| `Search.TableWalk` | demo/krackpot/src/shaders/search.js:109-114 | the walk over the bits adds up the low 22 bits of t times the stride |
| `Search.TableBits` | demo/krackpot/src/shaders/search.js:109-114 | the low 22 bits of t are t mod 2^22 |
| `Search.PlacedIff` | demo/krackpot/src/shaders/search.js:105-115 | a thread starts where the CPU will look for it exactly when t < 2^22 |
| `Search.SearchOutput.Record` | demo/krackpot/src/shaders/search.js:151-155 | the counter counts every hit and the first 16 are stored |
| `Search.WalkPoints` | demo/krackpot/src/shaders/search.js:120-128 | slot k holds key s + k |
| `Search.CoordsOf` | demo/krackpot/src/shaders/search.js:84-88 | with the inverse of Z the kernel hashes the affine coordinates of the key |
| `Search.ZeroAtInfinity` | demo/krackpot/src/shaders/search.js:137 | Z vanishes exactly at the multiples of the group order |
| `Search.InvertAll` | demo/krackpot/src/shaders/search.js:130-145 | the coordinates hashed for each slot are the key's, or (0, 0) for the whole thread if one of its keys is infinity |
| `Search.ThreadCoords` | demo/krackpot/src/shaders/search.js:99-145 | what a thread hashes: for each offset the coordinates of its key, from its place in the dispatch on |
| `Search.RecordHits` | demo/krackpot/src/shaders/search.js:147-157 | exactly the slots whose hash matches are recorded, in order |
| `Search.SearchThread` | demo/krackpot/src/shaders/search.js:99-158 | one thread adds to the log exactly its matching keys |
| `Search.HitsAre` | demo/krackpot/src/shaders/search.js:147-157 | membership in the hits of a thread |
| `BatchInverseLimbs.BatchInvertLimbs` | demo/krackpot/src/shaders/search.js:130-145 | on limbs, each slot ends with the inverse of its Z, or with 0 in every slot when a Z vanishes |
| `BatchInverseLimbs.BackwardPassLimbs` | demo/krackpot/src/shaders/search.js:137-145 | the walk back on limbs turns prefix products into inverses in place |
| `SearchLimbs.TableWalkLimbs` | demo/krackpot/src/shaders/search.js:109-114 | on limbs too, the walk adds up the low 22 bits of t times the stride |
| `SearchLimbs.WalkPointsLimbs` | demo/krackpot/src/shaders/search.js:117-128 | on limbs, slot k holds key s + k |
| `SearchLimbs.InvertLimbs` | demo/krackpot/src/shaders/search.js:130-145 | with the inverses on limbs every slot reads back as the coordinates to hash, a thread that meets infinity included |
| `SearchLimbs.ThreadCoordsLimbs` | demo/krackpot/src/shaders/search.js:99-149 | from the limbs of the uploaded table and base point to the limbs a thread hashes: those of each of its keys, or (0, 0) throughout |
| `Dispatch.BuildOffsetTable` | demo/krackpot/src/coordinator.js:237-250 | entry b is 2^b * stride * G, never infinity |
| `Dispatch.SlotToKey` | demo/krackpot/src/coordinator.js:442 | every (thread, offset) of a dispatch rebuilds to a key of its interval, and the key gives the pair back |
| `Dispatch.KeyToSlot` | demo/krackpot/src/coordinator.js:442 | every key of the interval is rebuilt from exactly one (thread, offset) |
| `Dispatch.HitIsKey` | demo/krackpot/src/coordinator.js:437-442 | with at most 2^22 threads a slot is a hit exactly when the rebuilt key scans as the target |
| `Dispatch.BlockedOnlyAtInfinity` | demo/krackpot/src/shaders/search.js:137-145 | no key, a multiple of the order itself included, is blocked exactly when the interval of the dispatch avoids those multiples; a step towards `Misses.NoneMissedIff` |
| `Misses.BlockedIff` | demo/krackpot/src/shaders/search.js:137-145 | a key is blocked exactly by the multiples of the order among the keys of its thread |
| `Misses.NoneMissedIff` | demo/krackpot/src/coordinator.js:377-387 | no key of the searched range is missed exactly when the thread of every multiple of the order in the dispatch holds no other key of the range |
| `Misses.NoneMissedForKeys` | demo/krackpot/src/coordinator.js:377-387 | for ranges of private keys: exactly when the thread that meets 0 ends by the start of the range and the one that meets the order begins past its end |
| `Misses.EveryDrawFineIff` | demo/krackpot/src/coordinator.js:377-387 | every first key that may be drawn misses nothing, exactly when the range ends a thread of keys below the order and either starts a thread of keys above 0 or so high that no negative draw reaches it |
| `Misses.TwoNegativeDraws` | demo/krackpot/src/coordinator.js:377-387 | instances for keys 1 to 5000 at the default size: the first key -1 misses key 1, and -47, whose dispatch holds 0 as well, misses nothing |
| `Dispatch.ScannedIff` | demo/krackpot/src/shaders/search.js:137-157 | the kernel compares the key's own hash exactly when the key is not blocked, or when that hash is the one of (0, 0) |
| `Dispatch.NegativeChunkBlocks` | demo/krackpot/src/coordinator.js:377-387 | a step towards `Misses.TwoNegativeDraws`: for keys 1 to 5000 at the default size the first key -1 may be drawn, and key 1 is then not scanned |
| `Dispatch.RunThreads` | demo/krackpot/src/shaders/search.js:99-158 | in whatever interleaving the threads reach the counter, the log holds each hit of the dispatch once and nothing else |
| `Sizing.PartitionCovers` | demo/krackpot/src/coordinator.js:338-349 | a dispatch covers at least the keys asked for, and exactly those for whole workgroups |
| `Sizing.SplitIsLeast` | demo/krackpot/src/coordinator.js:338-349 | one workgroup serves exactly the sizes up to 3072, with the fewest keys per thread that cover them; above that each thread has 48 and no workgroup is to spare |
| `Sizing.RestoredIff` | demo/krackpot/src/coordinator.js:113-116 | a stored size is kept exactly from 1 to 2^26, and any other becomes that of one full workgroup |
| `Sizing.FitsTableIff` | demo/krackpot/src/coordinator.js:46-59 | thread indices fit the table exactly up to 48 * 2^22 keys |
| `Sizing.ShrunkIs` | demo/krackpot/src/coordinator.js:418-420 | k losses in a row divide the size by 8^k, down to 64 |
| `Sizing.SevenLossesSuffice` | demo/krackpot/src/coordinator.js:418-420 | seven losses reach the smallest dispatch from any size |
| `Sizing.MinimalIff` | demo/krackpot/src/coordinator.js:338-349 | no dispatch has fewer than 64 keys, and it has 64 exactly when at most 64 are asked for |
| `Sizing.ShrunkToMinimumIff` | demo/krackpot/src/coordinator.js:418-420 | after k losses the next dispatch is a smallest one exactly below 65 * 8^k keys |
| `Pacing.LossesShrink` | demo/krackpot/src/coordinator.js:409-420 | over every run the losses since the last completed dispatch were of its calibrated size shrunk once more each time, at most five of them |
| `Pacing.GivesUpAtMinimumIff` | demo/krackpot/src/coordinator.js:410-433 | a run that gives up after j losses in a row lost last a dispatch of the calibrated size shrunk j - 1 times, and lost a smallest one among them exactly when that size was below 65 * 8^(j - 1) |
| `Pacing.WhyGivenUp` | demo/krackpot/src/coordinator.js:422-433 | a run gives up at the fifth loss in a row or when a recovery fails |
| `Pacing.FirstLoss` | demo/krackpot/src/coordinator.js:428-433 | one loss and a failed recovery end a run, which lost a smallest dispatch exactly when it started with at most 64 keys |
| `Pacing.GivesUpUntried` | demo/krackpot/src/coordinator.js:428-433 | an instance: a run from the default size that gives up having tried 3072 keys only |
| `Pacing.FiveLosses` | demo/krackpot/src/coordinator.js:422-426 | five losses, all recovered from: a smallest dispatch was among them exactly for sizes below 266240 |
| `Pacing.EveryTurnCounts` | demo/krackpot/src/coordinator.js:370-435 | every turn of a run is skipped, or its dispatch is lost or completed |
| `Pacing.SteadyRun` | demo/krackpot/src/coordinator.js:370-435 | when no draw is infinite and nothing is lost every turn completes a dispatch |
| `Pacing.StuckSweep` | demo/krackpot/src/coordinator.js:371-391 | a range that fits a dispatch and starts at a nonzero multiple of the order never dispatches, and its size stays |
| `Sizing.OvershootHalvesIff` | demo/krackpot/src/coordinator.js:314-319 | an overlong dispatch halves the size asked for exactly from 128 keys on |
| `Sizing.OvershootAt100` | demo/krackpot/src/coordinator.js:314-319 | instances: a size of 100 keys becomes 64, and one of 10 becomes 64 |
| `Sizing.DoublesIff` | demo/krackpot/src/coordinator.js:320-321 | a dispatch below 50 ms doubles the size exactly up to half of 2^26, and gives 2^26 from there |
| `Sizing.AddsQuarterIff` | demo/krackpot/src/coordinator.js:322-323 | one from 50 to below 175 ms adds a quarter exactly while that stays within 2^26 |
| `Sizing.GrowsIff` | demo/krackpot/src/coordinator.js:316-329 | the size grows, falls or stays exactly in the listed cases; from 175 to 500 ms it stays |
| `Pacing.FastRun` | demo/krackpot/src/coordinator.js:316-329 | after k completions below 50 ms in a row the size is the lesser of 2^k times the old one and 2^26 |
| `Pacing.SlowRun` | demo/krackpot/src/coordinator.js:316-329 | after k completions above 500 ms in a row it is the greater of 64 and the old one over 2^k |
| `Pacing.SteadySize` | demo/krackpot/src/coordinator.js:316-329 | completions from 175 to 500 ms leave it alone |
| `Sizing.OvershootHalvesDispatchIff` | demo/krackpot/src/coordinator.js:314-349 | the next dispatch has at most half the keys of the overlong one exactly when that one had an even number of units (of 64 keys, or of 3072 above that), or was asked for just one key into its last unit |
| `Sizing.OvershootAt6146` | demo/krackpot/src/coordinator.js:314-349 | instances: a dispatch of 9216 keys is followed by one of 6144, and one of 128 by one of 64 |
| `Draws.DrawsCovering` | demo/krackpot/src/coordinator.js:371-391 | how many draws that run cover a key: those in reach but the multiples of the order, and one more up to the size when 0 is drawn |
| `Draws.UniformIff` | demo/krackpot/src/coordinator.js:377-391 | for every range that is drawn from, all keys are covered by equally many draws exactly when the dispatch is as large as asked for (or the second key of the range is a multiple of the order, and the dispatch one key larger or the range of two keys), and past the slack neither a key nor the key a dispatch before it is a multiple of the order, nor one that a replaced 0 shifts |
| `Draws.UniformForKeys` | demo/krackpot/src/coordinator.js:377-387 | for keys from 1 to below the order: exactly for a whole number of workgroups, or of 64s within the first, not above the start of the range |
| `Draws.SlackAtLowEdge` | demo/krackpot/src/coordinator.js:377-387 | an instance on the range of the page: 3073 keys are asked for, 6144 covered, and the first key has 3073 draws where a later one has 6144 |
| `Draws.SkippedDraw` | demo/krackpot/src/coordinator.js:388-391 | an instance past the order: from 64 to 2n at 64 keys, key n has 63 draws and key 128 has 64 |
| `Draws.FirstKeyGiven` | demo/krackpot/src/coordinator.js:371-387 | every first key whose dispatch meets a range larger than it is given by a sample below their number, and by one alone but for key 1 |
| `Sampling.EqualShares` | demo/krackpot/src/coordinator.js:61-77 | masking and rejection give each value of a range the same number of byte strings, 2 to the number of bits masked off |
| `Sampling.RejectsAtMostHalf` | demo/krackpot/src/coordinator.js:67-75 | the masked values kept are at least half of them |
| `Sampling.Sample` | demo/krackpot/src/coordinator.js:61-77 | the sample is the first value that is not rejected, in the interval, and an empty interval gives its low end |
| `Coordinator.SearchCoordinator.constructor` | demo/krackpot/src/coordinator.js:91-127 | from any stored value the size is in bounds and the table unknown |
| `Coordinator.SearchCoordinator.Setup` | demo/krackpot/src/coordinator.js:129-183 | a new, empty buffer on a live device, with nothing uploaded |
| `Coordinator.SearchCoordinator.OffsetTable` | demo/krackpot/src/coordinator.js:237-250 | cached or built, the table is the one for the stride, and it is cached afterwards |
| `Coordinator.SearchCoordinator.EnsureOffsetTable` | demo/krackpot/src/coordinator.js:254-260 | afterwards a live buffer holds the table for the stride returned; one already there is left alone |
| `Coordinator.SearchCoordinator.RunDispatch` | demo/krackpot/src/coordinator.js:263-312 | it completes only on a live buffer, and a loss makes the buffer unusable; on completion uploaded table, header and returned stride agree, the table was uploaded since the last loss, and the hits are the first 16 of the kernel's exact log |
| `Coordinator.SearchCoordinator.PrivToPkh` | demo/krackpot/src/reference/address.js:9-15 | the hash of the key's point, failing at infinity |
| `Coordinator.SearchCoordinator.Report` | demo/krackpot/src/coordinator.js:437-466 | drops hits in turn, counting those in range as rejected, up to the first that rebuilds to a key of the range with the target hash, which is reported, or to one without a public point; a hit is rejected, or the check throws, only if (0, 0) hashes to the target |
| `Coordinator.SearchCoordinator.CheckHit` | demo/krackpot/src/coordinator.js:437-466 | one hit is dropped, reported or throws exactly as its key, range and hash demand |
| `Coordinator.SearchCoordinator.Recalibrate` | demo/krackpot/src/coordinator.js:316-329 | the new size (`Sizing.GrowsIff`, `Sizing.DoublesIff`), saved exactly when it changes, within [1, 2^26] |
| `Coordinator.SearchCoordinator.Lose` | demo/krackpot/src/coordinator.js:410-435 | shrinks, saves, records the size lost and counts the loss; goes on exactly on a fresh live buffer with nothing uploaded, and gives up after more than four losses or a failed recovery |
| `Coordinator.SearchCoordinator.Draw` | demo/krackpot/src/coordinator.js:371-387 | the first key for a random sample: the start of a range that fits, otherwise that many keys above the lowest whose dispatch meets the range; never 0 |
| `Coordinator.SearchCoordinator.TakeTurn` | demo/krackpot/src/coordinator.js:370-487 | a turn is skipped exactly when the drawn key is infinity; otherwise it completes one dispatch from that key and recalibrates, or loses it, shrinks the size by 8 and recovers or gives up |
| `Coordinator.SearchCoordinator.Start` | demo/krackpot/src/coordinator.js:351-488 | over every run: each completed dispatch has table stride = header = rebuilding stride, size within [1, 2^26] covered and every thread index below 2^22; the total is the sum of the settled dispatches, none of which passed over a wanted key; at most one key is reported, in range and with the target hash; sizes, losses, completions and giving up are those of the turns as played (`Pacing.PaceOf`); every completed dispatch read a table uploaded since the last loss; no turn follows one that asked to stop, a run that goes on was never asked to, and one that stopped, reported or gave up is not running; a target that does not decode throws and leaves the coordinator running |
| `Coordinator.SearchCoordinator.SweepDecides` | demo/krackpot/src/coordinator.js:371-376 | a range that fits one dispatch and reports nothing holds no wanted key, up to key 0 and keys sharing a thread with infinity |
| `Coordinator.WantedIsLogged` | demo/krackpot/src/coordinator.js:437-442 | every wanted key not blocked by infinity is rebuilt from some entry of the kernel's log |
| `LineDiff.LcsBounds` | demo/git/index.html:745-747 | no common subsequence is longer than the recursion says (the exchange argument for always taking a match) |
| `LineDiff.LcsAttained` | demo/git/index.html:745-747 | some common subsequence is that long |
| `LineDiff.FillTable` | demo/git/index.html:742-749 | the table filled backwards holds the longest common subsequence length of every pair of suffixes |
| `LineDiff.Walk` | demo/git/index.html:753-765 | the walk pushes exactly the script up to where one side runs out |
| `LineDiff.DiffLines` | demo/git/index.html:739-775 | the loops produce the recursive script |
| `LineDiff.ScriptSpellsBoth` | demo/git/index.html:739-775 | context and minus lines spell before, context and plus lines spell after, and the context lines number the longest common subsequence |
| `LineDiff.ContextIsCommon` | demo/git/index.html:753-773 | the context lines of any well-marked script are a common subsequence of its two sides |
| `LineDiff.ScriptIsShortest` | demo/git/index.html:739-775 | no script from before to after is shorter or keeps more context |
| `LineDiff.ReplacedBlock` | demo/git/index.html:753-773 | a text replaced by one that shares no line with it gives all removals, then all additions |
| `LineDiff.SwappedLines` | demo/git/index.html:753-773 | two lines swapped: the first is removed and added again |
| `Blame.DiffLineAssignments` | demo/git/blame.html:225 | the loops compute the recursive assignment, one commit for each new line |
| `Blame.SourcesAlign` | demo/git/blame.html:225 | kept lines come from equal old lines in order, as many as the longest common subsequence |
| `Blame.SwappedSources` | demo/git/blame.html:225 | two lines swapped: the second keeps its source, the first is new |
| `Blame.KeptIsCommon` | demo/git/blame.html:225 | the kept lines of any such alignment are a common subsequence |
| `Blame.ClaimsFewest` | demo/git/blame.html:225 | no alignment leaves fewer lines to the new commit |
| `Blame.AssignmentsFollowSources` | demo/git/blame.html:225 | a line keeps its source's commit, or gets the new one |
| `Blame.FileBlame` | demo/git/blame.html:240-243 | the fold over all versions computes the blame of the last |
| `Blame.BlamedOnIntroducer` | demo/git/blame.html:240-243 | each final line is blamed on the version that introduced it |
| `Blame.LineHistory` | demo/git/blame.html:240-243 | the line stands in every version since, along a chain of alignments, and was new in its introducer |
| `Blame.OrderKept` | demo/git/blame.html:240-243 | two final lines stand in the same order in every version that has both |
| `Base58.AlphabetSearch` | demo/krackpot/src/reference/base58.js:29 | indexOf finds the one position of a character, and -1 exactly outside the alphabet |
| `Base58.Base58Encode` | demo/krackpot/src/reference/base58.js:10-24 | the loops compute the encoding |
| `Base58.Base58Decode` | demo/krackpot/src/reference/base58.js:26-43 | the loops compute the decoding, with the first bad character as the error |
| `Base58.DecodeEncode` | demo/krackpot/src/reference/base58.js:10-43 | decoding undoes encoding on all byte sequences, leading zeros and the empty one included |
| `Base58.EncodeDecode` | demo/krackpot/src/reference/base58.js:10-43 | decoding succeeds exactly over the alphabet, and encoding undoes it |
| `Base58.OverAlphabetAll` | demo/krackpot/src/reference/base58.js:28-30 | over the alphabet means every character is in it |
| `Base58.CharAscends` | demo/krackpot/src/reference/base58.js:3 | the alphabet is in the order of the character codes |
| `Base58.DigitsAndLetters` | demo/krackpot/src/reference/base58.js:3 | it holds exactly the digits and letters but 0, I, O and l |
| `Positional.FirstDigit` | demo/krackpot/src/reference/base58.js:10-12 | the first digit or byte has the greatest weight |
| `Base58.SameNumber` | demo/krackpot/src/reference/base58.js:10-24 | the text spells the number of the bytes, with a leading 1 for each leading zero |
| `Base58.TwoBytes` | demo/krackpot/src/reference/base58.js:10-43 | an instance: the bytes 1, 0 are 5R, and back |
| `Base58.ZeroThenLast` | demo/krackpot/src/reference/base58.js:10-43 | an instance: the bytes 0, 57 are 1z, and back |
| `Base58.CheckedBytes` | demo/krackpot/src/reference/base58.js:45-51 | a checked string decodes to the payload and four bytes of its double hash |
| `Base58.Base58CheckEncode` | demo/krackpot/src/reference/base58.js:45-51 | the result decodes to the payload followed by the first four bytes of sha256(sha256(payload)) |
| `Base58.Base58CheckDecode` | demo/krackpot/src/reference/base58.js:53-63 | accepts exactly strings of at least five bytes whose last four are those of the double hash of the rest, which is returned; each refusal has its error |
| `Base58.CheckDecodeIsInverse` | demo/krackpot/src/reference/base58.js:45-63 | a string decodes to p exactly when it is the encoding of p and p is not empty |
| `Base58.EmptyPayloadRefused` | demo/krackpot/src/reference/base58.js:55 | the encoding of the empty payload is refused as too short |
| `Base58.EncodeP2PKH` | demo/krackpot/src/reference/base58.js:73-79 | refuses exactly other lengths than 20; else version 0, the hash and four bytes of the double hash of both |
| `Base58.DecodeP2PKH` | demo/krackpot/src/reference/base58.js:66-71 | accepts exactly 25 bytes of version 0 with the right sum and returns the 20 in between; wrong length and version each have their error |
| `Base58.StartsWithOne` | demo/krackpot/src/reference/base58.js:65-79 | every accepted address starts with 1 |
| `Base58.P2PKHRoundTrip` | demo/krackpot/src/reference/base58.js:65-79 | an address decodes to a hash exactly when it is the encoding of that hash |

## Left out

- Relay pools, subscriptions, fetching of missing events, and the random delay before an ack is sent: a run delivers any published event to any daemon at any step, or never.
- Signatures, hashing and tag parsing of events: an event is its id, author, kind and list of parents.
- The JSON and WASM wrapper of `src/lib.rs`, the relay, key generation and the servers: plumbing around libraries.
- Depths are unbounded here; the source keeps them in 64 bits, which suffice (`Consensus.DepthFits`).
- The order in which a hash map yields its entries is left open, and the library's stable sort is modelled as an insertion sort.
- WebGPU calls, shader compilation and buffer layout in bytes: the buffer is its table, base point and stride, and a dispatch completes or is lost.
- The compression rounds of SHA-256 and RIPEMD-160, the serialisation of a public key before hashing, and the byte swaps between the two.
- The recording of hits works on residues of any prime, with every field operation as the function that the limb routines are proved to compute; all that leads to the coordinates a thread hashes is also modelled on limbs (`SearchLimbs.ThreadCoordsLimbs`).
- Shifts, masks and the ORs of differences in the limb routines are written as divisions, remainders and comparisons; the one OR that joins two halves is justified on bit-vectors (`Limbs.OrIsAdd`).
- The hit counter does not wrap at 2^32: a dispatch has fewer slots than that.
- `search` and the coordinator use unbounded thread numbers and sizes; the 32-bit widths are not reached below the proved bound of 2^22 threads.
- Coordinator.SearchCoordinator.Start: models finite runs, for any list of turns, because the loop of the source need not end; the sample of each draw is given, and the bytes it comes from are counted apart (`Sampling.Sample`, `Sampling.EqualShares`); a `stop` followed by a second `start` while the first loop still waits, so that two loops share the coordinator, is not modelled.
- Coordinator.SearchCoordinator.RunDispatch: models a failure before or after the table upload only, because nothing written to a lost buffer is ever read.
- Coordinator.SearchCoordinator.Lose: a recovery that fails leaves the buffer as it was, although `setup` could fail after making a new one.
- Coordinator.SearchCoordinator.Report: does not compare the address of a reported key with the target address, because the result only labels the report.
- Rates, rolling samples, progress callbacks and local-storage parsing beyond one integer.
- Splitting text into lines, decoding blobs, and the shortcut of blame for binary or missing versions; versions are given as lists of lines.
- The pages, the claim queue and relays, the fee checks and the peer-to-peer archive.
