# Kanon credentials, proof-of-existence circuits and mediation: a verified model

This project models the algorithmic core of an Aries/Kanon agent and proves what that core is for.
It has four parts.

**The Tier-2 revocation accumulator** (`registry_kanon`). Each credential definition has a list of active
leaves. Two trees are recomputed over it: a keccak tree with sorted pairs and promoted odd nodes
(`KeccakTree.dfy`), and a sparse tagged-Poseidon tree of fixed depth (`PoseidonTree.dfy`), whose simple form
is the dense tree of `DenseTree.dfy`. Issuing and revoking form a state machine whose chain calls and storage
calls may each fail (`AccumulatorMachine.dfy`); `Accumulator.dfy` puts the code's own leaves, roots and
checkpoint texts into it and holds the issuer object, a class with the chain and the store as fields.
`RevocationPlan.dfy` is the planning loop, `CredentialLeaf.dfy` the canonical attribute order and the leaf,
`StatusList.dfy` the Tier-1 status-list bridge, and `CanonicalJson.dfy` the canonical printer.

**BabyJubjub EdDSA**. `PrimeField.dfy` is arithmetic modulo any prime, with inverses computed and "no zero
divisors" proved. `BabyJubjub.dfy` is the rearranged addition: it is the textbook law, it is closed, and it
never meets a zero denominator (the completeness theorem of Bernstein and Lange). `ScalarMul.dfy` is
double-and-add against k-fold addition, `EdDsa.dfy` signing, verifying and the wire form, `Blake512.dfy` the
BLAKE-512 framing, `BlakePadding.dfy` its comparison with the proposal, `Bytes.dfy` and `Hex.dfy` the byte conversions.

**Proof of existence**. `PoeRegistry.dfy` is the append-only registry with its paths, `Membership.dfy` and
`Liveness.dfy` the two constraint systems: gates, copy constraints and instance cells, with the solution set
characterised exactly.

**Mediation in the agent**. `ForwardWrap.dfy` is the onion of Forward messages, `PickupDedup.dfy` concurrent
pickup deliveries over a shared set of processed ids, and `MediationSetup.dfy` any number of concurrent
bootstrap calls, cut at every await point; `MediationPaths.dfy` has single runs of it, answered reply by
reply, and what calls for several mediators do to each other.

## How to read the model

- keccak, Poseidon and the BLAKE-512 compression are arbitrary functions. Where a statement needs a hash to
  stay in the field, it asks for exactly that; where it depends on collision resistance, the lemma returns
  the place in the tree where two different pairs have one hash: a pair of the path against the tree's own, or
  the children of two named nodes.
- Tree depth, bit width and the prime are parameters; the code fixes 26, 16 and 64, the Pasta and the BN254
  primes.
- Loops that update variables are methods with invariants, proved equal to a specification function or to
  the promised result; objects with fields are classes; protocols are step functions with theorems over all
  runs.
- Some facts about the published curve are hypotheses, gathered in `EdDsa.Sound` and in the `requires` of
  `EdDsa.KanonIsSound`: the BN254 scalar modulus is prime, d is not a square, the Edwards law is associative,
  and the subgroup order annihilates BASE8. What can be computed (the base point is on the curve, a is a
  square with an explicit root, the order is divisible by 8, sizes) is proved.

## Where the code differs from what is said of it

- `blake512` is documented as identical to a standard implementation. Its padding is that of section 2.2.3
  of the BLAKE SHA-3 proposal except when the length is 111 modulo 128 (or its bit count exceeds 64 bits):
  there the proposal sets one byte 0x81 and the code adds a whole block (`BlakePadding.PaddingAgreesIff`).
  Lengths 32 and 64, the only ones the signature scheme hashes, are not affected.
- The liveness gates alone do not enforce that the score reaches tau. The first accumulator cell is assigned
  zero but no gate fixes it, so every score has a satisfying assignment for every tau
  (`Liveness.GatesAcceptEveryScore`, with an instance below the threshold). On every satisfying assignment
  score - tau is that cell plus an n-bit number; acceptance means "score >= tau" if and only if the cell is 0
  (`Liveness.DecidesIffZero`), and the bound alone is enforced for exactly the cells stated in
  `Liveness.BoundsIff`.
- Attribute order is forgotten by the leaf exactly when attributes of one name have one encoded value; with
  two different values under one name, two orders of the same list give two different leaves.
- Chain and checkpoint come to disagree by one kind of step only: one whose batch the chain accepts while its
  checkpoint cannot be written. That condition is stated on the inputs of the step, and a run that meets it is
  given (`AccumulatorMachine.StepAgrees`, `AccumulatorMachine.UnsavedRun`).
- Issuing an id again after its revocation resets its status on chain, and binding a revoked index to another
  credential replaces the record the saved list speaks of. Both break an earlier saved list; the exact
  condition covers every binding and every fault, and both runs are given (`StatusList.IssueKeepsListsIff`,
  `StatusList.UndisciplinedRuns`).
- The Mode B leaf covers attribute values in name order and not the names: renaming attributes without changing
  their order gives the same leaf (`CredentialLeaf.RenamingKeepsLeaf`).
- In the bootstrap an error from listing the connections is read as "no connection", so the call connects
  again although a completed connection is there.
- The bootstrap's lock is per mediator, while the grant query is not. Calls for two mediators can each see no
  grant and each get one; over all runs there is never a second grant if and only if at most one mediator is
  called (`MediationPaths.OneGrantIffOneMediator`).
- Looking an id up and marking it are two separate lock acquisitions. Between await points this is harmless;
  on two threads it is not, and a run that dispatches one message twice is given. Every id is dispatched at
  most once if and only if no two calls with a payload are ever between look-up and mark on the same id
  (`PickupDedup.OnceIffSeparate`).
- The registry's `insert` has no capacity check. Below 2^depth every path folds to the root; beyond it a
  path folds to the root if the block of 2^depth leaves around its index repeats the first block, and only if
  it does or two nodes of the blocks' subtrees, which the lemma returns, collide
  (`PoeRegistry.PathFoldsToRootIff`); a registry where the path misses the root is given.

## Model

| member | source | states |
|---|---|---|
| PrimeField.InverseDescent | src/registry_kanon/src/babyjub.rs:91-96 | the computed inverse times its argument is 1, for every prime and every nonzero element |
| PrimeField.NoZeroDivisors | src/poe_prover/src/membership.rs:190-203 | a product vanishes modulo a prime only if a factor does |
| BabyJubjub.AddDivides | src/registry_kanon/src/babyjub.rs:79-101 | the coordinates of a sum, times their denominators, are the textbook numerators |
| BabyJubjub.AddIsTextbook | src/registry_kanon/src/babyjub.rs:79-101 | the rearranged addition equals the textbook twisted-Edwards sum, for all points and parameters |
| BabyJubjub.AddCommutes | src/registry_kanon/src/babyjub.rs:79-101 | addition is commutative on all pairs, although its intermediate values are not symmetric |
| BabyJubjub.NeutralIsIdentity | src/registry_kanon/src/babyjub.rs:42-101 | (0, 1) is a two-sided identity |
| BabyJubjub.AddStaysOnCurve | src/registry_kanon/src/babyjub.rs:123-129 | the sum of two curve points whose denominators are invertible satisfies the curve equation, over every prime field |
| BabyJubjub.AddNeverPanics | src/registry_kanon/src/babyjub.rs:91-96 | with a a square and d a non-square, the two inversions in addition never fail on curve points |
| ScalarMul.Mul | src/registry_kanon/src/babyjub.rs:106-120 | double-and-add from the low bit returns the k-fold sum, for every scalar and every commutative group |
| ScalarMul.ReductionsCancel | src/registry_kanon/src/eddsa.rs:165-214 | reducing S modulo the subgroup order and 8c modulo the full order cancel: S·B = r·B + 8c·(m·B) for a secret 8m |
| ScalarMul.TimesInjective | src/registry_kanon/src/eddsa.rs:181-184 | below the exact order of a point, different scalars give different multiples |
| ScalarMul.CurveIsGroup | src/registry_kanon/src/babyjub.rs:79-129 | curve points under the code's addition satisfy all the group laws used, given associativity |
| EdDsa.Prune | src/registry_kanon/src/eddsa.rs:66-74 | the in-place masking yields the clamped buffer of section 5.1.5 of RFC 8032 |
| EdDsa.PrunedScalar | src/registry_kanon/src/eddsa.rs:66-74 | the clamped scalar is a multiple of 8 in [2^254, 2^255), whatever the digest |
| EdDsa.PrunedValue | src/registry_kanon/src/eddsa.rs:66-74 | on numbers, clamping sets bit 254 and keeps exactly bits 3 to 253 |
| EdDsa.SecretFromDigest | src/registry_kanon/src/eddsa.rs:129-141 | the secret is that clamping of the first half of the key's digest |
| EdDsa.SignedEquation | src/registry_kanon/src/eddsa.rs:145-215 | the signer's S solves the verifier's equation, whatever nonce and challenge |
| EdDsa.SignThenVerify | src/registry_kanon/src/eddsa.rs:129-248 | for every key and leaf: the signature survives encoding and decoding, and the restored public key accepts it if and only if S is not 0 and neither R8 nor the public key is neutral |
| EdDsa.SignThenVerifyIff | src/registry_kanon/src/eddsa.rs:129-215 | with the exact order of BASE8, acceptance is arithmetic: the subgroup order does not divide the secret scalar over 8, and neither nonce nor S is 0 |
| EdDsa.AcceptedForIff | src/registry_kanon/src/eddsa.rs:176-215 | an accepted signature is accepted for another leaf if and only if 8·Poseidon(R8x, R8y, Ax, Ay, leaf) and the same with the other leaf take the public key to one point |
| EdDsa.SignatureCovers | src/registry_kanon/src/eddsa.rs:145-215 | an honest signature is accepted for another leaf if and only if the two challenges, times the secret, agree modulo the subgroup order |
| EdDsa.SignerCovers | src/registry_kanon/src/eddsa.rs:145-171 | over one nonce two leaves get the same S exactly under that condition |
| EdDsa.NonceCovers | src/registry_kanon/src/eddsa.rs:152-159 | the nonce hashes the second half of the digest and the 32 little-endian bytes of the leaf, which differ for different leaves |
| EdDsa.AcceptedSIsUnique | src/registry_kanon/src/eddsa.rs:176-215 | for one key, leaf and R8 at most one S is accepted |
| EdDsa.DecodeEncode | src/registry_kanon/src/eddsa.rs:225-248 | decoding undoes encoding if and only if all three numbers fit 32 bytes |
| EdDsa.WireOrder | src/registry_kanon/src/eddsa.rs:225-248 | R8x, R8y and S stand in this order as big-endian numbers |
| EdDsa.EncodeDecode | src/registry_kanon/src/eddsa.rs:225-248 | every 96-byte string decodes, and encoding gives it back |
| EdDsa.EncodeZkSignature | src/registry_kanon/src/eddsa.rs:225-231 | the loop over the three numbers fills exactly the 96 bytes of the specification |
| EdDsa.PublishedParameters | src/registry_kanon/src/babyjub.rs:22-70 | BASE8 is on the curve, a has a square root, the order is divisible by 8, and every scalar fits a word |
| EdDsa.KanonIsSound | src/registry_kanon/src/babyjub.rs:22-70 | the published constants satisfy all that the signature theorems ask, given primality, non-squareness, associativity and the order of BASE8 |
| Bytes.BiguintToBe32 | src/registry_kanon/src/eddsa.rs:252-258 | filling the buffer from the right gives the big-endian bytes, and reads back as the number if and only if it is below 2^256 |
| Bytes.AlignMinimal | src/registry_kanon/src/eddsa.rs:252-258 | right-aligning the minimal big-endian bytes in a fixed width, cutting the front, is the fixed-width encoding of the number |
| Blake512.Digest | src/registry_kanon/src/blake512.rs:134-192 | the loop over full blocks and the one or two padded blocks feed compress exactly the specified blocks and counters |
| Blake512.AbsorbFull | src/registry_kanon/src/blake512.rs:141-146 | the full-block loop consumes floor(n/128) blocks with counter 8·offset |
| Blake512.PadRemainder | src/registry_kanon/src/blake512.rs:148-162 | the padding loop ends and appends 0x80, zeros to 111 modulo 128, 0x01 and the bit length |
| Blake512.BlocksAreFramed | src/registry_kanon/src/blake512.rs:134-192 | the blocks fed to compress, one after the other, are the padded message |
| Blake512.LastBlocks | src/registry_kanon/src/blake512.rs:164-184 | two padded blocks occur exactly for remainders of 111 and more; the block with the last message bytes gets counter 8n, a block without message bytes gets 0 |
| Blake512.FramingRecovers | src/registry_kanon/src/blake512.rs:148-162 | below 2^61 bytes the message can be read back from the blocks, so framing is injective |
| BlakePadding.PaddingAgreesIff | src/registry_kanon/src/blake512.rs:148-162 | bit by bit, with the length as a 128-bit number, the padding is that of the BLAKE proposal if and only if the length is not 111 modulo 128 and its bit count fits 64 bits |
| BlakePadding.LengthFieldIff | src/registry_kanon/src/blake512.rs:159-162 | the length bytes are the 128-bit big-endian length if and only if its upper half is zero |
| KeccakTree.HashPairCommutes | src/registry_kanon/src/merkle.rs:26-36 | the sorted pair hash is commutative |
| KeccakTree.HashPairSorts | src/registry_kanon/src/merkle.rs:26-36 | in either order the lexicographically smaller operand is hashed first |
| NameOrder.LexMeaning | src/registry_kanon/src/merkle.rs:28-34 | the byte order: the first difference decides, and a proper beginning comes first |
| KeccakTree.OzKeccakRoot | src/registry_kanon/src/merkle.rs:44-64 | the layer loop ends at the root of the layered tree after exactly n − 1 pair hashes |
| KeccakTree.EveryLeafHasProof | src/registry_kanon/src/merkle.rs:44-64 | every leaf of every tree has a proof of at most ceil(log2 n) siblings that processes to the root, promoted odd nodes included |
| DenseTree.NodeIsFullRoot | src/registry_kanon/src/merkle.rs:81-132 | each node of the reference tree is the root of the full tree over its own zero-padded leaves |
| DenseTree.EmptySubtree | src/poe_prover/src/registry.rs:59-65 | a subtree that starts past the last leaf has the default hash of its level |
| DenseTree.FoldToAncestor | src/poe_prover/src/membership.rs:95-103 | folding siblings upward from any node gives its ancestor, at every height |
| DenseTree.FoldBinds | src/poe_prover/src/membership.rs:95-103 | a path that folds to a node starts from the very leaf its directions name and has the tree's own siblings, or the returned level is one where the path hashes a pair other than the tree's to the same value |
| DenseTree.EqualNodesEqualLeaves | src/poe_prover/src/registry.rs:59-73 | two equal nodes of one level have the same padded leaves below them, or the returned nodes below them, one in each subtree, are hashed from different children to one value |
| PoseidonTree.PoseidonRoot | src/registry_kanon/src/merkle.rs:88-132 | the sparse incremental root is the root of the full dense tree padded with zeros, for every depth from 1 to 127; it fails exactly for depth 0 and too many leaves |
| PoseidonTree.InsertLeaf | src/registry_kanon/src/merkle.rs:106-129 | one insertion keeps every entry of every level map equal to its dense node |
| PoseidonTree.AppendIsLocal | src/registry_kanon/src/merkle.rs:114-129 | appending a leaf changes no node but its own ancestors |
| DenseTree.EmptyLevels | src/registry_kanon/src/merkle.rs:100-104 | the table of empty-subtree hashes is right at every level; the registry's table is the same loop |
| Hex.ParseEncoded | src/registry_kanon/src/ids.rs:29-47 | every 32-byte word survives printing as hex and parsing back |
| Hex.DecodeIff | src/registry_kanon/src/ids.rs:34-47 | exactly the even-length texts of hex digits of either case decode |
| Hex.ParseCredIdForms | src/registry_kanon/src/leaf.rs:102-116 | the 64 digits of every 32-byte id are read back with 0x, 0X or no prefix |
| Hex.ParseCredIdIff | src/registry_kanon/src/leaf.rs:102-116 | without a prefix an id is rejected unless it is 64 hex digits |
| CredentialLeaf.FeltThroughHex | src/registry_kanon/src/poseidon.rs:209-223 | a field element written as a 32-byte big-endian word and as hex reads back as itself |
| CredentialLeaf.EncodingForgetsOrder | src/registry_kanon/src/leaf.rs:53-69 | any permutation of the attributes, with any reserved attributes added, encodes to the same felts |
| CredentialLeaf.OrderForgottenIff | src/registry_kanon/src/leaf.rs:53-69 | all orders of a list encode alike if and only if attributes of equal name have equal felts |
| CredentialLeaf.InconsistentOrderMatters | src/registry_kanon/src/leaf.rs:53-69 | otherwise two orders of the same attributes with different encodings are constructed |
| CredentialLeaf.PublishedLeafIsSigned | src/registry_kanon/src/zk.rs:204-351 | the leaf that issuing publishes for any permutation of the prepared attributes, with or without the reserved tail, is the leaf that was signed, and reads back unchanged from checkpoint and chain |
| CredentialLeaf.LeafBinds | src/registry_kanon/src/leaf.rs:141-157 | equal leaves come from equal cred-def, id hash and padded values, or show which of two written-out input lists Poseidon maps to one value |
| CredentialLeaf.SortedEncoding | src/registry_kanon/src/leaf.rs:46-69 | attributes in name order are encoded one by one by the keccak hash of their value modulo p |
| CredentialLeaf.RenamingKeepsLeaf | src/registry_kanon/src/leaf.rs:58-69 | the leaf does not cover attribute names: renaming that keeps the order gives the same leaf |
| CredentialLeaf.PrepareModeBIff | src/registry_kanon/src/zk.rs:204-275 | preparation fails if and only if one of the three reserved names occurs or there are more than 16 attributes, and appends id and signature in this order |
| NameOrder.SortedUnique | src/registry_kanon/src/leaf.rs:67-67 | a list with one value per name has only one sorted arrangement |
| NameOrder.SortSorted | src/registry_kanon/src/leaf.rs:67-67 | sorting by name sorts, in code-point order |
| NameOrder.SortPermutes | src/registry_kanon/src/leaf.rs:67-67 | sorting keeps every entry as often as it occurs |
| RevocationPlan.PlanRevoke | src/registry_kanon/src/zk.rs:397-429 | the loop that removes id after id computes the recursive removal and fails on the first absent id |
| RevocationPlan.PlanConserves | src/registry_kanon/src/zk.rs:397-429 | active leaves are the remaining and the revoked ones as multisets, one revoked leaf per id, each with the leaf of its id |
| RevocationPlan.PlanKeepsOrder | src/registry_kanon/src/zk.rs:397-429 | the remaining leaves are a subsequence of the active ones |
| RevocationPlan.PlanExact | src/registry_kanon/src/zk.rs:397-429 | on distinct leaves the plan succeeds if and only if the ids derive distinct active leaves, and it then keeps exactly the others |
| RevocationPlan.IdOrderIrrelevant | src/registry_kanon/src/zk.rs:397-429 | the order of the ids changes neither success nor what remains |
| RevocationPlan.BatchesCompose | src/registry_kanon/src/zk.rs:397-429 | one batch is the same as two successive ones |
| AccumulatorMachine.StepAgrees | src/registry_kanon/src/zk.rs:283-513 | one issue or revoke keeps checkpoint and chain in agreement (distinct leaves, both roots, counters) if and only if it is not a step whose ids and leaves resolve, whose set loads, whose roots fit, whose chain call works and whose checkpoint cannot be written |
| AccumulatorMachine.IssueOutcome | src/registry_kanon/src/zk.rs:283-351 | published, unsaved and skipped, each if and only if a condition on inputs, store and faults |
| AccumulatorMachine.RevokeOutcome | src/registry_kanon/src/zk.rs:453-481 | on distinct leaves a revocation is published if and only if its ids derive distinct active leaves, the roots fit, no call fails and the checkpoint can be written |
| AccumulatorMachine.PublishedIssue | src/registry_kanon/src/zk.rs:311-350 | a published issue appends exactly its leaf, and the chain has the new roots and one more issue, counted from zero after a re-initialisation |
| AccumulatorMachine.PublishedRevoke | src/registry_kanon/src/zk.rs:453-481 | a published revocation leaves exactly the leaves not named, and the chain has their roots and as many more revocations as ids |
| AccumulatorMachine.FailedStep | src/registry_kanon/src/zk.rs:283-513 | a failed or skipped step writes no checkpoint and no leaf, and at most initialises an empty set |
| AccumulatorMachine.UnsavedRun | src/registry_kanon/src/zk.rs:347-349 | for every system whose leaf and roots can be computed, the first issue with failing storage writes ends in disagreement |
| AccumulatorMachine.RunAgrees | src/registry_kanon/src/zk.rs:283-513 | in every run none of whose steps is such a step, so in every run with working storage and chain calls free to fail, leaves stay distinct, both on-chain roots are those of the checkpoint, and issued minus revoked is their number, re-initialisation included |
| AccumulatorMachine.RunNeverAhead | src/registry_kanon/src/zk.rs:347-349 | whatever fails, every checkpoint leaf was accepted by the chain at some point |
| AccumulatorMachine.StepIsLocal | src/registry_kanon/src/zk.rs:485-513 | an operation changes nothing of another credential definition |
| Accumulator.CheckpointRoundTrip | src/registry_kanon/src/zk.rs:104-126 | every active list survives the hex checkpoint |
| Accumulator.ComputeKeccakRoot | src/registry_kanon/src/zk.rs:586-592 | the root over the active keccak leaves, a single zero leaf when there are none |
| Accumulator.ComputePoseidonRoot | src/registry_kanon/src/zk.rs:596-602 | the dense Poseidon root over the active leaves as a word, or an error beyond 2^depth leaves |
| Accumulator.KanonRuns | src/registry_kanon/src/zk.rs:283-513 | both run theorems for the code's own leaves, roots and checkpoint text |
| Accumulator.ActiveLeavesAreProvable | src/registry_kanon/src/zk.rs:283-513 | end to end: after every run with working storage, each checkpoint leaf has a short proof against the keccak root and a sibling path to the Poseidon root that the chain holds |
| Accumulator.OnlyActiveLeavesProve | src/registry_kanon/src/zk.rs:283-513 | the converse: after every run with working storage, a nonzero felt with a path to the Poseidon root on chain is that of the active leaf its directions name, or the returned level shows a collision with the tree; so a leaf that is no longer active proves no longer |
| Accumulator.RevokedIsInactive | src/registry_kanon/src/zk.rs:453-467 | after a published revocation a leaf is active if and only if it was and no revoked id derives it |
| Accumulator.RevokedProvesNoMore | src/registry_kanon/src/zk.rs:453-481 | a revoked leaf then proves against the Poseidon root only where another active credential has the same leaf, or with a collision at the returned level |
| Accumulator.NodesAreNotLeaves | src/registry_kanon/src/merkle.rs:77-79 | a tree node that equals a leaf is a Poseidon collision between two written-out lists that differ in their tag |
| Accumulator.DerivedTwice | src/registry_kanon/src/leaf.rs:102-121 | the keccak leaf of every id, in each prefix form, is the double keccak hash of its 32 bytes |
| Accumulator.SmallKeccakRoots | src/registry_kanon/src/zk.rs:586-592 | the keccak root of no, one and two leaves |
| Accumulator.StoredLeafIsSigned | src/registry_kanon/src/zk.rs:204-351 | after a published issue on any permutation of the prepared attributes, the checkpoint is the old one and a last leaf that the chain accepted and that reads as the field element the issuer signed |
| Accumulator.ZkIssuer.AddIssuedCredential | src/registry_kanon/src/zk.rs:283-351 | the issuing method does to chain and store what the machine's issue step does, failure by failure |
| Accumulator.ZkIssuer.RevokeByCredIds | src/registry_kanon/src/zk.rs:453-481 | the revoking method does what the machine's revoke step does |
| Accumulator.ZkIssuer.SaveActive | src/registry_kanon/src/zk.rs:506-548 | saving is an update, else a save, and reports when both fail |
| CanonicalJson.CanonicalIff | src/registry_kanon/src/ids.rs:130-167 | two JSON values have the same canonical text if and only if they are equal up to the order of object members, at any nesting |
| CanonicalJson.Unique | src/registry_kanon/src/ids.rs:136-167 | canonical text is self-delimiting: no text of one value is a proper beginning of another followed by a delimiter |
| CanonicalJson.SameMeansEqualText | src/registry_kanon/src/ids.rs:136-167 | member order does not reach the text |
| CanonicalJson.WriteCanonical | src/registry_kanon/src/ids.rs:136-167 | the recursive writer appends exactly the canonical text to its output |
| CanonicalJson.UnescapeEscape | src/registry_kanon/src/ids.rs:136-167 | what is printed for a string reads back as it by section 7 of RFC 8259 |
| CanonicalJson.ObjectTexts | src/registry_kanon/src/ids.rs:136-167 | objects are printed with their members in name order whatever the insertion order |
| CanonicalJson.ArrayTexts | src/registry_kanon/src/ids.rs:136-167 | arrays are printed in order with single commas |
| CanonicalJson.ScalarTexts | src/registry_kanon/src/ids.rs:136-167 | literals and strings as JSON writes them |
| StatusList.SavedIndicesAreRevoked | src/registry_kanon/src/registry.rs:335-382 | in every run that issues each id once before binding its index, chain failures midway through a list included, every index set in the last saved list is Revoked on chain |
| StatusList.RevokedWasListed | src/registry_kanon/src/registry.rs:335-382 | in every run at all, a credential that is Revoked on chain was listed: some registered list set an index then bound to it |
| StatusList.RegisterEffect | src/registry_kanon/src/registry.rs:335-382 | registering, complete or cut short, touches no chain key but those of newly listed indices; complete, it has revoked all of those and saved the list |
| StatusList.PushedKey | src/registry_kanon/src/registry.rs:370-373 | a pushed key ends Revoked, or, when only the revocation failed, Issued, or as it was |
| StatusList.RegisterIff | src/registry_kanon/src/registry.rs:335-382 | a list is registered if and only if its record loads and saves and every new index is bound and neither looked up nor revoked in vain |
| StatusList.IssueEffect | src/registry_kanon/src/registry.rs:64-80 | issuing sets one chain key and binds at most one index |
| StatusList.DefineEffect | src/registry_kanon/src/registry.rs:288-317 | defining starts a record without a list |
| StatusList.RunKeeps | src/registry_kanon/src/registry.rs:64-80 | issuing, defining and registering keep the invariant that ties saved lists, bindings and chain status |
| StatusList.IssueKeepsListsIff | src/registry_kanon/src/registry.rs:64-80 | for every binding and fault, an issue keeps the saved lists true if and only if the chain call fails, or no other saved index belongs to that credential and a rebound saved index goes to a credential already revoked under the registry's own, different cred-def |
| StatusList.IssueOwnCredDefIff | src/registry_kanon/src/registry.rs:64-80 | under the registry's own cred-def: if and only if the chain call fails, or the credential belongs to no saved index and no saved index is rebound |
| StatusList.UndisciplinedRuns | src/registry_kanon/src/state.rs:70-79 | issue, define, register and then issuing again, or binding the index to another credential, ends with a saved list that is false on chain |
| StatusList.RevokedIndices | src/registry_kanon/src/registry.rs:409-426 | exactly the positions of the 1-bits, each once, ascending |
| StatusList.Registry.RegisterStatusList | src/registry_kanon/src/registry.rs:335-382 | the loop pushes the newly set indices, stops at the first failure, and saves the list only after all succeeded |
| StatusList.Registry.OnCredentialIssued | src/registry_kanon/src/registry.rs:64-80 | the chain status is written first and the index bound only after it |
| PoeRegistry.Registry.Path | src/poe_prover/src/registry.rs:79-92 | the loop yields the siblings and directions of the dense tree |
| PoeRegistry.Registry.NodeOf | src/poe_prover/src/registry.rs:59-73 | the node with the empty-subtree short cut is the dense node at every level and index |
| PoeRegistry.Registry.Insert | src/poe_prover/src/registry.rs:36-39 | appends the leaf and returns its index |
| PoeRegistry.MerkleRoot | src/poe_prover/src/membership.rs:97-103 | the loop over siblings and directions is the path fold |
| PoeRegistry.PathFoldsToRoot | src/poe_prover/src/registry.rs:75-92 | for every index below 2^depth the path folds from its leaf to the root |
| PoeRegistry.PathFoldsToRootIff | src/poe_prover/src/registry.rs:36-92 | for every index and every hash: the path folds to the root if the padded block of leaves around the index equals the first block, and only if it does or the returned nodes of the two blocks' subtrees collide |
| PoeRegistry.OverflowMisses | src/poe_prover/src/registry.rs:36-39 | in a registry of capacity two the third leaf reaches the root if and only if two particular hashes coincide |
| PoeRegistry.OverflowInstance | src/poe_prover/src/registry.rs:36-39 | for every modulus above 2, a registry and a hash within the field for which it does not |
| PoeRegistry.Registry.PathReachesRoot | src/poe_prover/src/registry.rs:107-120 | path, fold and root of the object together: always equal below capacity, and beyond it exactly when the node above the leaf is the root |
| Membership.SwapGateMeaning | src/poe_prover/src/membership.rs:190-203 | the gate's three polynomials vanish if and only if dir is a bit and (left, right) is (cur, sib) or its swap accordingly |
| Membership.SatisfiableIffKnown | src/poe_prover/src/membership.rs:183-285 | the constraints have a solution for (root, challenge, tag) if and only if some key limbs, siblings and bits fold to the root and hash to the tag, for every depth |
| Membership.AssignmentKnows | src/poe_prover/src/membership.rs:219-285 | the witness can be read off any satisfying assignment |
| Membership.HonestSatisfies | src/poe_prover/src/membership.rs:219-285 | what synthesize assigns satisfies all constraints |
| Membership.Synthesize | src/poe_prover/src/membership.rs:219-285 | the loop over levels fills in that assignment |
| Membership.OnlyRegisteredKeys | src/poe_prover/src/membership.rs:219-285 | against a registry's root, a satisfying assignment's key is that of the leaf (or empty leaf) its direction bits name and its siblings are the registry's, or the returned level of its path shows a pair that collides with the registry's pair there |
| Membership.RegisteredKeysProve | src/poe_prover/src/registry.rs:79-92 | every registered key below capacity satisfies the circuit with the registry's own path |
| Liveness.DecomposeGateMeaning | src/poe_prover/src/lib.rs:93-102 | the gate holds if and only if the cell is a bit and the accumulator grows by bit times 2^i |
| Liveness.SatisfiableFrom | src/poe_prover/src/lib.rs:84-186 | with the accumulator starting at a given value, gates and final equality are satisfiable if and only if score − tau is congruent to that value plus some number below 2^n |
| Liveness.AssignmentLaw | src/poe_prover/src/lib.rs:84-186 | on every satisfying assignment score − tau is congruent to the first accumulator cell plus some number below 2^n |
| Liveness.GatesAcceptEveryScore | src/poe_prover/src/lib.rs:156-158 | the gates exclude nothing by themselves: every score has a satisfying assignment for every tau, because no gate fixes that cell |
| Liveness.BelowThresholdAccepted | src/poe_prover/src/lib.rs:156-158 | a satisfying assignment with score 0 and tau 1 |
| Liveness.BoundsIff | src/poe_prover/src/lib.rs:84-186 | acceptance implies score >= tau for all n-bit values if and only if the first cell is at most p − 2^(n+1) + 1 |
| Liveness.DecidesIffZero | src/poe_prover/src/lib.rs:118-186 | acceptance is equivalent to score >= tau for all n-bit values if and only if the first cell is 0 |
| Liveness.SatisfiableIffReached | src/poe_prover/src/lib.rs:118-186 | with the cell at the 0 that synthesize assigns, for n-bit scores in a field of more than n + 1 bits: satisfiable if and only if score >= tau |
| Liveness.Decompose | src/poe_prover/src/lib.rs:159-180 | the loop's bits sum to the difference and its accumulator rows are the running sums |
| Liveness.Prove | src/poe_prover/src/lib.rs:217-224 | refuses exactly when score < tau, and otherwise the assignment satisfies every gate |
| ForwardWrap.Wrap | src/agent/src/pickup.rs:555-614 | the loop from the last key to the first builds the onion, fails exactly when some key cannot be sealed for, and without routing keys leaves the payload alone |
| ForwardWrap.PeelsToPayload | src/agent/src/pickup.rs:577-611 | opening with the routing keys in order always succeeds, layer j names the normalised key j + 1, the last layer the recipient, and the payload is the original |
| ForwardWrap.OnlyTheRoute | src/agent/src/pickup.rs:577-611 | a list of keys opens the onion down to the payload if and only if it is the route |
| ForwardWrap.Arrives | src/agent/src/pickup.rs:555-614 | when each mediator is registered under its normalised key, following the addresses takes the payload to the recipient in exactly n hops |
| ForwardWrap.ForwardToMeaning | src/agent/src/pickup.rs:560-575 | the recipient is the first key that is not a reference, and the fall-backs apply only without one |
| ForwardWrap.NormaliseForms | src/agent/src/pickup.rs:582-596 | a fragment is dropped, a well-formed did:key converted, any other key kept |
| ForwardWrap.RecipientForms | src/agent/src/pickup.rs:565-570 | the recipient's key is converted in the same way, but with its fragment |
| ForwardWrap.NoFragment | src/agent/src/pickup.rs:587-591 | the part before the first '#', or everything |
| PickupDedup.AtMostOnce | src/agent/src/pickup.rs:327-387 | in every run, on any threads, that never has two calls with a payload between look-up and mark on one id: no id is dispatched twice or after having been processed, the set only grows, and all reported counts together are at most its growth |
| PickupDedup.OnceIffSeparate | src/agent/src/agent/mediation.rs:728-749 | in every run in which each call that passed a look-up goes on to mark, no id is dispatched twice if and only if no two calls with a payload are ever between look-up and mark on the same id; likewise for marking, with or without payload |
| PickupDedup.CooperativeIsSeparate | src/agent/src/pickup.rs:336-341 | runs interleaved at awaits alone have no such overlap |
| PickupDedup.RacingDispatch | src/agent/src/agent/mediation.rs:728-749 | with look-up and mark of two threads interleaved, one message is dispatched twice |
| PickupDedup.AcknowledgedIsProcessed | src/agent/src/pickup.rs:307-387 | when a delivery is over, every id it acknowledges is in the set, and it counts at most the ids it marked |
| PickupDedup.AckCounts | src/agent/src/pickup.rs:307-316 | each real id is acknowledged as often as it was delivered, "unknown" never |
| PickupDedup.AckConcat | src/agent/src/pickup.rs:307-316 | acknowledgements keep the order of the attachments |
| PickupDedup.DeliverExact | src/agent/src/pickup.rs:327-387 | the dispatched ids are exactly the new ones whose first occurrence has a payload, each once |
| PickupDedup.DeliverConcat | src/agent/src/pickup.rs:327-387 | a delivery is its parts one after the other |
| PickupDedup.OneDelivery | src/agent/src/pickup.rs:336-386 | one attachment: skipped when processed, else marked, and dispatched with the decoded base64 text, or else the JSON, or not at all |
| PickupDedup.IdPrecedence | src/agent/src/pickup.rs:307-334 | "@id" decides even when it is no text, then "id", then "unknown", which is never acknowledged |
| PickupDedup.Agent.ProcessPickupDelivery | src/agent/src/pickup.rs:290-391 | the loop updates set, dispatches and count as specified; an empty delivery needs no connection, a missing connection changes nothing |
| PickupDedup.AloneDelivers | src/agent/src/pickup.rs:290-391 | the uninterrupted delivery is one of the interleaved runs, with the same outcome |
| MediationSetup.NeverTwoGrants | src/agent/src/mediation_setup.rs:98-157 | in every interleaving of any number of calls for one mediator, with any failures, a store with at most one grant never gets a second |
| MediationPaths.OneGrantIffOneMediator | src/agent/src/mediation_setup.rs:98-118 | for every set of mediators: over all runs from the empty store there is never a second grant if and only if the set has at most one member |
| MediationPaths.TwoMediatorsTwoGrants | src/agent/src/mediation_setup.rs:98-118 | the run in which calls for two mediators each see no grant and each get one |
| MediationSetup.RunKeeps | src/agent/src/mediation_setup.rs:77-450 | in every run the grants go from none to at most one, or from some to a non-empty part of themselves |
| MediationSetup.NoConnectAfterGrant | src/agent/src/mediation_setup.rs:110-238 | once a grant is stored, no call of any agent ever runs the out-of-band connect, and a grant stays |
| MediationSetup.ConnectsJustified | src/agent/src/mediation_setup.rs:239-285 | each connect was made by a call that on taking the lock saw no grant and no completed connection for its invitation, unless listing the connections failed |
| MediationPaths.BlindConnect | src/agent/src/mediation_setup.rs:244-253 | from every store without a grant but with a completed connection for the invitation, some run connects again: the unconditional promise is false |
| MediationPaths.ConnectsExactly | src/agent/src/mediation_setup.rs:244-285 | on every store without a grant, an undisturbed call connects if and only if the listing failed or no completed connection for its invitation is there |
| MediationSetup.RestoreHeals | src/agent/src/mediation_setup.rs:124-157 | after pruning, the grants left are the returned one and those whose deletion failed |
| MediationSetup.RestoreKeepsConnections | src/agent/src/mediation_setup.rs:138-157 | after pruning, in every run: each connection usable on taking the lock and not an orphan's is still usable, and each orphan's is gone or could not be deleted |
| MediationSetup.RestoreSucceeds | src/agent/src/mediation_setup.rs:124-238 | unless stopped, a restore whose kept grant has a usable connection of its own cannot end in failure, whatever deletions and other calls do |
| MediationSetup.RestoreStarts | src/agent/src/mediation_setup.rs:110-121 | the grant listing puts a call on that way when the first grant's connection was usable at lock time and no other grant shares it |
| MediationSetup.KeepsFirst | src/agent/src/mediation_setup.rs:121-138 | the first listed grant is kept, and the others pruned in their order |
| MediationSetup.RunSuccess | src/agent/src/mediation_setup.rs:98-450 | in every run, once a call has ended well there is a grant in the store |
| MediationSetup.AdvanceRecords | src/agent/src/mediation_setup.rs:110-450 | a reply keeps records, adds a request on a completed connection, or removes an orphan grant; a status goes from Requested to Granted and no other way |
| MediationSetup.DeniedStays | src/protocols/coordinate_mediation/src/domain/state.rs:30-45 | in every run a denied record stays denied |
| MediationPaths.RestoreResult | src/agent/src/mediation_setup.rs:124-238 | an undisturbed restore ends well with the store as it was, or with the missing key persisted |
| MediationPaths.RestoreFailure | src/agent/src/mediation_setup.rs:159-167 | a single grant whose connection is missing or incomplete cannot be restored, and nothing changes |
| MediationPaths.PruneResult | src/agent/src/mediation_setup.rs:138-157 | with one orphan, exactly its record and its connection are gone |
| MediationPaths.ReuseResult | src/agent/src/mediation_setup.rs:239-430 | an undisturbed call with a completed connection for its invitation ends well and has added exactly a granted, keyed record on it |
| MediationPaths.FreshResult | src/agent/src/mediation_setup.rs:239-430 | with neither grant nor connection, it has added exactly the new connection and that record |
| MediationPaths.RunReacts | src/agent/src/mediation_setup.rs:98-107 | the interleaved machine does with an undisturbed call what the reply-by-reply reading says, leaves the other calls alone, and frees the lock at the end |
| MediationPaths.ReuseExactly | src/agent/src/mediation_setup.rs:244-253 | the reused connection is exactly a completed one from the call's own invitation |
| MediationSetup.MutualExclusion | src/agent/src/mediation_setup.rs:98-107 | in every run, whatever mediators are called, two calls for one mediator are never past its lock together |
| MediationSetup.AdvanceFits | src/agent/src/mediation_setup.rs:110-450 | every reply to every await keeps what the call's phase says about the store |
| MediationSetup.LockTable.LockFor | src/agent/src/mediation_setup.rs:59-67 | callers get the same lock if and only if they name the same key, and entries are never replaced |

## Left out

- CurveIsGroup: takes associativity of the Edwards law as a hypothesis; closure, commutativity, identity and completeness are proved.
- KanonIsSound: assumes primality of the modulus, non-squareness of d, associativity of the Edwards law and that the subgroup order annihilates BASE8; all are facts about constants or textbook algebra, none about the code.
- SatisfiableIffReached: is for a first accumulator cell of 0, because no gate fixes that cell; AssignmentLaw, GatesAcceptEveryScore and DecidesIffZero state what holds without it.
- AtMostOnce: is for runs without an overlap on one id, because it is false otherwise; OnceIffSeparate shows that this is exact.
- NeverTwoGrants: is for one mediator key, because it is false for more; OneGrantIffOneMediator shows that this is exact. The other bootstrap results about grants and connects are for one mediator for the same reason.
- ConnectsJustified: carries the exception for a failed listing because the code has it.
- Poseidon rounds and constants, keccak, the BLAKE-512 rounds, initial value and output words: uninterpreted.
- Proof creation and verification by halo2, key generation and the Pow5 chip: a foreign library; a hash cell is constrained to the hash of its inputs.
- base64, JWE packing, UTF-8 and multibase decoding: abstract functions or sealed envelopes.
- Reading private keys from hex, minting credential ids from the clock, and the random ids of Forward messages: inputs.
- The Mode-B signature check over attributes, issuer-key persistence and deterministic issuer keys: wiring around the signature scheme.
- Concurrent issues or revokes on one credential definition: load, publish and save hold no lock, so runs are sequential.
- A chain call that fails is taken to have had no effect; transaction hashes and the chain's per-leaf lists are not kept.
- Integer widths: u64 and u128 counters are unbounded below the stated message size, and u32 indices are unbounded.
- JSON numbers are opaque texts over the number characters, and the foreign printer's treatment of non-ASCII text is not compared.
- The storage record keyed by registry and index is a map keyed by the pair; serialised record bodies are their values.
- Asynchronous grant and deny messages that reach the agent outside setup_mediation, keylist records, notifications and routing state on the agent.
- Poisoned locks, for which the processed-id functions answer as if nothing was processed.
- The WebSocket pickup loop, polling back-off, mediator server routes, push notifications, metrics and HTTP clients: I/O and short bounds.
- The commitment circuit, which the membership circuit contains, and turning bytes into field elements, which is not injective.
- ML-DSA and SLH-DSA wrappers: thin calls into libraries.
