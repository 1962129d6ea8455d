# Verified models of chainlink-common

Dafny models of the parts of chainlink-common with the hardest guarantees, and proofs of those guarantees. Check
everything with `dafny verify dfyconfig.toml`.

## What is modelled

**Merkle multiproofs** (`Hashing`, `MerkleTree`, `MerkleProver`, `MerkleVerifier`, `MerkleCompleteness`,
`MerkleSoundness`, `MerkleBinding`, `Keccak`, `KeccakProofs`). The tree builder, the layer-by-layer prover and the flat,
queue-driven verifier are imperative methods with the source's cursors, each proved equal to a recursive specification.
The theorems are about the specifications: completeness, soundness, root binding over lists of any lengths, the size
bound of proofs, and the exact inputs the verifier accepts. The hasher is an arbitrary function. No injectivity is assumed of it: where security
depends on the hash, the conclusion is "or this particular collision exists", on pairs that really occur in the two trees
or in the verifier's computation. `KeccakProofs` carries that down to the repository's concrete preimages
(separator, then the two children in order), over an arbitrary 32-byte hash function.

**Length-prefixed encoding** (`ByteEncoding`). `EncodeBytesOfBytes` with a decoder that inverts it.

**Service lifecycle** (`Lifecycle`, `StateMachines`, `SleeperTask`). `StateMachine` is a step system: any number of
threads, each at a program counter inside `StartOnce`, `StopOnce`, `IfStarted` or `IfNotStopped`; one step is one atomic
action (a compare-and-swap, a lock operation, a hook beginning or ending). The compare-and-swap of `StartOnce` is taken
outside the lock, as in the source. `StateMachines` is the object with its method bodies; every action it takes is
recorded, so its history is a run of the step system. `SleeperTask` adds the one-slot channel, the worker loop's select
and the two closed channels.

**Workflow dependency graph** (`WorkflowInputs`, `DependencyGraph`). References in nested inputs, and the construction of
the graph by an object that refuses duplicate vertices, unknown ends, duplicate edges and cycles. The steps are visited
in arbitrary order, as ranging over a map does.

**LINK amounts** (`Decimals`, `LinkText`), **Mercury aggregation** (`MercuryAggregator`), **codec paths**
(`CodecPath` on values, `CodecMemory` in place on the heap), **dynamic values and their protobuf messages** (`Values` on
mathematical trees, `ValueMemory` on the heap, where every struct and everything a slice, a map or a big integer refers
to is an object of its own), **page tokens and pagination** (`Base64`, `Pagination`). `Options` is shared by all.

Beside the theorems, laws about bytes, characters, numbers and texts fix the basic definitions that the theorems rest on:
layouts, orders, constants, numerals and error cases.

## Where the code and its documentation differ

The model follows the code.

- `sleeper_task.go:34-36` promises a Work call for every WakeUp. `Stop` may win the select against a waiting token, and
  then an accepted wake-up is never served: `SleeperTask.StopCanDropWakeUp` is such a run, and
  `SleeperTask.ServedExactlyWhenSlotEmpty` says, from the moment stopping begins, exactly when the promise is kept.
- `VerifyComputeRoot` panics on no leaves, one proof hash and no flags, and on nothing else
  (`MerkleVerifier.PanicsExactlyOn`). Its last error, "not all proofs used", is never returned.
- A root alone does not determine the number of leaves: the padding value appended to an odd list
  (`MerkleBinding.PaddingIsInvisible`) and an inner layer taken as leaves (`MerkleBinding.InnerLayerHasSameRoot`) keep it.
  `MerkleBinding.RootMeaning` shows that nothing else does, short of a collision or a pair that hashes to the padding
  value. For leaves that are hashes of separated data the root does determine them (`KeccakProofs.DataRootBinding`).
- `FromProto(Proto(v))` shares the backing arrays of byte strings with `v`, which `Copy` does not
  (`ValueMemory.ThereAndBack`, `ValueMemory.Copy`).
- `SetValueAtPath` refuses the empty path, for which `typeForPath` and `ValueForPath` succeed (`CodecPath.SetThenGet`).
- `ListNodeStatuses` multiplies page and size without an overflow check. A list can be traversed exactly when the end of
  its last window fits 64 bits (`Pagination.TraversalExists`).

## Model

| member | source | states |
|---|---|---|
| MerkleTree.ComputeNextLayer | pkg/merklemulti/merkle_multi.go:133-145 | The loop pads an odd layer and produces the pairwise parents; a single node is its own next layer |
| MerkleTree.NewTree | pkg/merklemulti/merkle_multi.go:83-101 | The in-place construction yields exactly the layers of the specification, for every list; only the empty list is rejected |
| MerkleTree.LayersAreTree | pkg/merklemulti/merkle_multi.go:83-101 | The layers form a tree: bottom is the padded leaves, every layer the padded parents of the one below, the top a single node |
| MerkleTree.TreeIsLayers | pkg/merklemulti/merkle_multi.go:83-101 | Nothing else has that shape: any layers of this form over the leaves are the ones built |
| MerkleTree.HalvesMeet | pkg/merklemulti/merkle_multi.go:83-116 | The root over two halves of a power of two is the hash of their roots, the left one first |
| MerkleTree.OddTrees | pkg/merklemulti/merkle_multi.go:133-145 | Roots of one, three and five leaves spelled out: padding is added on the right on every layer that needs it |
| MerkleProver.ProveSingleLayer | pkg/merklemulti/merkle_multi.go:46-77 | The pairing loop emits the parent indices, flags and sibling hashes of the specification, or reports the first sibling out of bounds, for every index list |
| MerkleProver.Prove | pkg/merklemulti/merkle_multi.go:118-131 | The whole proof, layer by layer below the root, or the error of the first failing layer |
| MerkleProver.IndexArithmetic | pkg/merklemulti/merkle_multi.go:38-44 | 2k and 2k + 1 are siblings, for negative indices too; parents halve toward zero |
| MerkleProver.PairsEitherWay | pkg/merklemulti/merkle_multi.go:53-63 | Two listed children of one node, in either order, need no proof hash; any other index needs its sibling |
| MerkleProver.LookupRefuses | pkg/merklemulti/merkle_multi.go:66-71 | A layer is refused exactly when some sibling index is out of bounds, and the first such index is reported |
| MerkleProver.MissingSibling | pkg/merklemulti/merkle_multi.go:118-123 | A single index whose sibling is not in the bottom layer is refused, and the sibling is reported |
| MerkleProver.TwoLeafProofs | pkg/merklemulti/merkle_multi.go:53-63 | The proofs of a tree of two leaves: which flag means the queue and which the proof |
| MerkleProver.CountMeaning | pkg/merklemulti/merkle_multi.go:22-29 | The count is the number of positions with the given flag |
| MerkleVerifier.CountSourceFlags | pkg/merklemulti/merkle_multi.go:22-29 | The loop counts the flags equal to the given one |
| MerkleVerifier.CombineNext | pkg/merklemulti/merkle_multi.go:181-203 | One turn of the verifier pops one or two entries of the queue (leaves first, then produced hashes), takes a proof hash when flagged so, and pushes their hash |
| MerkleVerifier.RunLoop | pkg/merklemulti/merkle_multi.go:171-204 | With balanced flags the three cursors never leave their ranges, no placeholder is read, everything is used once, and one hash remains: the replay's result |
| MerkleVerifier.VerifyComputeRoot | pkg/merklemulti/merkle_multi.go:147-210 | The method returns, for every input, the specified error, panic or root |
| MerkleVerifier.PanicsExactlyOn | pkg/merklemulti/merkle_multi.go:147-165 | It indexes an empty slice exactly on no leaves, one proof hash and no flags |
| MerkleVerifier.FailuresExactly | pkg/merklemulti/merkle_multi.go:147-170 | Each error exactly, in the order of the checks, with 256 as the largest number of combinations |
| MerkleVerifier.SmallVerifications | pkg/merklemulti/merkle_multi.go:179-209 | The order of operands: a proof hash first; of two queued hashes the older one; leaves are older than produced hashes |
| MerkleVerifier.ComputesExactlyWhenBalanced | pkg/merklemulti/merkle_multi.go:156-210 | A root is computed exactly when proof flags equal proof hashes, true flags are one fewer than leaves, and the flags fit the limit; "not all used" is never returned |
| MerkleCompleteness.NextAscending | pkg/merklemulti/merkle_multi.go:52-55 | Parents of strictly increasing in-range indices are strictly increasing and in range |
| MerkleCompleteness.LayerCounts | pkg/merklemulti/merkle_multi.go:53-63 | One flag per parent; every unpaired index costs one proof hash, every pair one true flag |
| MerkleCompleteness.LayerReplay | pkg/merklemulti/merkle_multi.go:46-77 | Layer boundary invariant: replaying a layer's flags turns the queue of its selected hashes into the queue of the selected parents |
| MerkleCompleteness.ProofReplaysToRoot | pkg/merklemulti/merkle_multi.go:118-131 | For every tree and every non-empty strictly increasing selection, proving succeeds and the proof replays to the root |
| MerkleCompleteness.ProofSize | pkg/merklemulti/merkle_multi.go:118-131 | flags = indices + hashes - 1, false flags = hashes, and a tree of at most 256 leaves needs at most 255 flags |
| MerkleCompleteness.CompletenessAnySize | pkg/merklemulti/merkle_multi.go:147-210 | For trees of any size the made proof verifies to the root if it has at most 256 flags, and is otherwise refused as too long |
| MerkleCompleteness.Completeness | pkg/merklemulti/merkle_multi.go:118-210 | Every tree of 1 to 256 leaves and every non-empty strictly increasing selection: Prove succeeds and VerifyComputeRoot returns the root |
| MerkleSoundness.ReplayConserves | pkg/merklemulti/merkle_multi.go:179-204 | The verifier consumes every supplied leaf and proof hash exactly once |
| MerkleSoundness.UnforgedEmbeds | pkg/merklemulti/merkle_multi.go:179-209 | A computation that reaches the value of a tree node without a forged pair is the top part of that node's subtree, up to swapping children |
| MerkleSoundness.Soundness | pkg/merklemulti/merkle_multi.go:147-210 | If the verifier returns a tree's root, its computation embeds in that tree or one of the pairs it hashed collides with a sibling pair, a leaf or the padding value |
| MerkleSoundness.SuppliedAreNodes | pkg/merklemulti/merkle_multi.go:147-210 | Then all supplied leaf and proof hashes together are nodes of the tree, each as often as supplied, unless a pair is forged |
| MerkleSoundness.LeafSoundness | pkg/merklemulti/merkle_multi.go:147-210 | A supplied hash that is neither padding nor internal is a leaf of the tree, and supplied at most as often as it is one, unless a pair is forged |
| MerkleBinding.ParentsBindChildren | pkg/merklemulti/merkle_multi.go:133-145 | Equal multisets of parents come from equal multisets of children, or two sibling pairs collide |
| MerkleBinding.RootBinding | pkg/merklemulti/merkle_multi.go:83-116 | Equal roots over leaf lists of one length mean the same multiset of hashes in every layer and of leaves, or a collision of two sibling pairs |
| MerkleBinding.RootMeaning | pkg/merklemulti/merkle_multi.go:83-116 | Equal roots over lists of any lengths: in trees of one height the same padded leaves up to order, so the lists differ at most by one padding value; in others the leaves of the lower tree are an inner layer of the higher one; anything else shows two colliding sibling pairs at one depth or a pair that hashes to the padding value |
| MerkleBinding.PaddingIsInvisible | pkg/merklemulti/merkle_multi.go:137-139 | The first exception exists: appending the padding value to an odd list of several leaves keeps the root |
| MerkleBinding.InnerLayerHasSameRoot | pkg/merklemulti/merkle_multi.go:83-101 | The second exception exists: the parents of a list, taken as leaves, have its root |
| Keccak.ZeroHash | pkg/hashutil/keccak.go:48-54 | The loop yields 32 bytes, each 0xFF |
| Keccak.NodeBytes | pkg/hashutil/keccak.go:23-43 | A node hashes 31 zero bytes, a one, the word that is smaller at the first difference, then the other, whichever way they are given |
| Keccak.NodeBytesOfEqual | pkg/hashutil/keccak.go:23-43 | The same for two equal words |
| Keccak.HashInternalCommutes | pkg/hashutil/keccak.go:38-43 | The node hash does not depend on the order of its children |
| Keccak.PreimageInjective | pkg/hashutil/keccak.go:38-43 | Two node preimages are equal exactly when the unordered pairs are |
| Keccak.NodeCollisionIsHashCollision | pkg/hashutil/keccak.go:30-43 | A node-hash collision is exactly a collision of the hash function on the two preimages |
| Keccak.DomainSeparation | pkg/hashutil/keccak.go:19-43 | Data not starting with the separator shares its hash with a node only by a hash collision |
| KeccakProofs.KeccakRootBinding | pkg/hashutil/keccak.go:36-54 | Root binding with the concrete hasher: otherwise two strings hashed while building the trees collide |
| KeccakProofs.DataRootBinding | pkg/hashutil/keccak.go:36-54 | Trees over the hashes of any two lists of separated data with one root have the same data, lengths and multiplicities included, or two strings hashed to build them collide, or one hashes to the padding value |
| KeccakProofs.MembershipSoundness | pkg/hashutil/keccak.go:36-54 | An accepted multiproof about hashed data items shows that all items are in the tree's data, each as often as claimed, or two strings hashed on the way collide, or one hashes to the padding value |
| KeccakProofs.KeccakCompleteness | pkg/hashutil/keccak.go:36-54 | Completeness holds of the concrete hasher whatever the hash function |
| ByteEncoding.EncodeBytesOfBytes | pkg/hashutil/common.go:27-41 | The loop writes the count, then every length and content |
| ByteEncoding.BigEndianInverse | pkg/hashutil/common.go:29-35 | A number that fits the width is recovered from its big-endian bytes |
| ByteEncoding.MostSignificantFirst | pkg/hashutil/common.go:29-35 | The most significant byte comes first |
| ByteEncoding.EncodingInBytes | pkg/hashutil/common.go:22-41 | An encoding starts with the count in eight bytes; one item follows as its length in eight bytes and its contents |
| ByteEncoding.DecodeInverts | pkg/hashutil/common.go:22-41 | Decoding an encoding followed by anything recovers the list and the rest, for counts and lengths below 2^64 |
| ByteEncoding.EncodePrefixFree | pkg/hashutil/common.go:22-41 | No encoding is a prefix of another; in particular it is injective |
| Lifecycle.StepInv | pkg/services/state.go:79-180 | Every atomic step of every thread keeps the lock, ownership, history, body and result invariants |
| Lifecycle.RunForward | pkg/services/state.go:47-55 | In every interleaving the state only moves forward along the declared graph and the hook history only grows |
| Lifecycle.AfterMeaning | pkg/services/state.go:47-55 | "Later" is what one edge or more of the declared graph lead to, and is never circular |
| Lifecycle.LifecycleSafety | pkg/services/state.go:79-147 | Start hook at most once; stop hook at most once and only after the start hook returned nil; hooks never overlap; both "unreachable state" panics are unreachable |
| Lifecycle.GuardedBodies | pkg/services/state.go:111-118 | While an IfStarted body runs the state is Started; while an IfNotStopped body runs it is neither Stopping nor Stopped; no body overlaps a hook |
| Lifecycle.ResultsStayTrue | pkg/services/state.go:79-180 | What a call returned is true of the state then and in every later state of the run |
| Lifecycle.NoDeadlock | pkg/services/state.go:79-180 | While a call is in progress, some call in progress can take a step |
| Lifecycle.WhoCanStep | pkg/services/state.go:79-180 | Which call in progress can step, exactly: a writer waits for a free lock, a reader for no writer, and nobody else ever waits |
| Lifecycle.StartIsDecidedAtOnce | pkg/services/state.go:79-86 | A second StartOnce returns its error in one step whoever holds the lock and changes nothing; a first one is on its way |
| StateMachines.StateMachine.constructor | pkg/services/state.go:31-42 | A fresh object is Unstarted, with an empty history |
| StateMachines.StateMachine.CompareAndSwap | pkg/services/state.go:82 | Succeeds exactly on the expected state, and only then stores the new one |
| StateMachines.StateMachine.StartOnce | pkg/services/state.go:79-109 | Undisturbed call: result, new state and hooks run, for every state and hook outcome; its actions extend the object's run; the panic branch is dead |
| StateMachines.StateMachine.StopOnce | pkg/services/state.go:112-147 | Undisturbed call: each refusal by state, or the hook's outcome and the new state; its actions extend the object's run; the panic branch is dead |
| StateMachines.StateMachine.RunIf | pkg/services/state.go:159-180 | IfStarted and IfNotStopped run the body exactly in the states they name and leave the state alone |
| StateMachines.ObjectKeepsResults | pkg/services/state.go:79-180 | What any earlier call on the object returned is true of its present state |
| SleeperTask.TaskNextInv | pkg/utils/sleeper_task.go:52-131 | Every step of callers, hooks and worker loop keeps the channel, loop and history invariants |
| SleeperTask.PendingMeansUnserved | pkg/utils/sleeper_task.go:82-131 | The history is pending exactly when some accepted wake-up has no later dequeue |
| SleeperTask.NoLostWakeUp | pkg/utils/sleeper_task.go:61-131 | In every reachable state some accepted wake-up is without a later dequeue exactly when the slot holds a token, and while Started a live loop is there to take it |
| SleeperTask.TokenCanBeServed | pkg/utils/sleeper_task.go:116-131 | From every reachable state with a token and a live loop, waiting or inside Work, the token can be taken: one more Work call starts and returns, the slot is empty, every accepted wake-up is served |
| SleeperTask.WakeUpNeverBlocks | pkg/utils/sleeper_task.go:82-101 | Inside its guarded body a wake-up is accepted and leaves a token whatever the slot and the loop are doing |
| SleeperTask.WorkIsSerial | pkg/utils/sleeper_task.go:116-131 | Work calls never overlap and never outnumber accepted wake-ups |
| SleeperTask.StopIsClean | pkg/utils/sleeper_task.go:70-80 | No channel is closed twice; when Stop returned nil the loop has exited |
| SleeperTask.NothingAfterStop | pkg/utils/sleeper_task.go:70-131 | Once stopping has begun no wake-up is accepted and no token added; once the loop has exited nothing happens at all |
| SleeperTask.ServedExactlyWhenSlotEmpty | pkg/utils/sleeper_task.go:32-40 | At any moment from when stopping begins: with the slot empty every accepted wake-up is served in every continuation; with a token in it some continuation never serves it, however it goes on; both are equivalences |
| SleeperTask.ServableExactlyWhileOpen | pkg/utils/sleeper_task.go:70-131 | Once stopping has begun, a waiting wake-up can still be served exactly while chDone is open |
| SleeperTask.StopCanDropWakeUp | pkg/utils/sleeper_task.go:34-36 | A reachable state that breaks the documented promise: stopped cleanly, one accepted wake-up, no dequeue |
| SleeperTask.StopCanTimeOut | pkg/utils/sleeper_task.go:70-80 | A reachable state in which Stop has given up while a Work call is still running |
| WorkflowInputs.FindRefs | pkg/workflows/dependency_graph.go:141-230 | The traversal collects the specified references in order, or fails |
| WorkflowInputs.RefsMeaning | pkg/workflows/dependency_graph.go:135-230 | It fails exactly on inputs with a nil inside, and otherwise finds exactly the steps some nested string interpolates |
| WorkflowInputs.InterpolationNamesStep | pkg/workflows/dependency_graph.go:135-167 | `$(step)` and `$(step.path)` name `step`, whatever the space-free path is |
| WorkflowInputs.NoReferenceExactly | pkg/workflows/dependency_graph.go:135-158 | A text holds no reference exactly when it is not `$(`, something non-empty without white space, `)` |
| WorkflowInputs.ItemsInOrder | pkg/workflows/dependency_graph.go:209-219 | The references of a list come in the order of its elements |
| WorkflowInputs.VisitOrderIrrelevant | pkg/workflows/dependency_graph.go:184-207 | Another order of map entries finds the same steps |
| DependencyGraph.IsReachable | pkg/workflows/dependency_graph.go:52-56 | The search behind cycle rejection finds a path exactly when there is one |
| DependencyGraph.EdgeClosesCycle | pkg/workflows/dependency_graph.go:52-56 | Adding an edge keeps the graph acyclic exactly when its target differs from and does not reach its source |
| DependencyGraph.Graph.AddVertex | pkg/workflows/dependency_graph.go:74-77 | Refuses exactly an existing name and changes nothing else |
| DependencyGraph.Graph.AddEdge | pkg/workflows/dependency_graph.go:110-119 | Refuses exactly unknown ends, existing edges and edges that would close a cycle; otherwise adds that edge only; stays acyclic |
| DependencyGraph.BuildDependencyGraph | pkg/workflows/dependency_graph.go:41-133 | Whatever order the steps are visited in, it succeeds exactly on buildable specifications, with exactly the declared edges and dependency lists, acyclic |
| DependencyGraph.BuildableMeaning | pkg/workflows/dependency_graph.go:64-120 | Buildable means: names distinct and not `trigger`, every step's inputs nil-free and mentioning at least one step and only existing ones, and no cycle |
| DependencyGraph.DeclaredMeaning | pkg/workflows/dependency_graph.go:87-119 | The edges are exactly (r, s) where the inputs of step s mention r |
| DependencyGraph.StepReadings | pkg/workflows/dependency_graph.go:70-98 | A step's own reference wins over its type, and an output reference over the mapping |
| DependencyGraph.OutputRefIsEdge | pkg/workflows/dependency_graph.go:93-119 | An output reference `$(source.path)` is an edge from `source`, and the step's only one |
| DependencyGraph.BuildOneStep | pkg/workflows/dependency_graph.go:41-133 | One step that reads `$(trigger.outputs)` is built into the graph with the one edge from `trigger` |
| DependencyGraph.WalkBack | pkg/workflows/dependency_graph.go:87-120 | A finite set in which every vertex has a predecessor inside has a cycle |
| DependencyGraph.EveryStepReachable | pkg/workflows/dependency_graph.go:87-120 | In every graph that is built, `trigger` has no incoming edge and every step is reachable from it |
| Decimals.ParseIntInverts | pkg/assets/link.go:103 | Reading a printed integer, of any size and sign, gives it back |
| Decimals.ParseIntExactly | pkg/assets/link.go:145 | What reads as an integer, exactly: a sign or none, then one digit or more |
| Decimals.WrittenNumerals | pkg/assets/link.go:103 | Most significant digit first, no leading zeros, a minus sign in front |
| LinkText.Link.MarshalText | pkg/assets/link.go:99-104 | The text of the amount as specified, and one that reads back as the amount |
| LinkText.Link.UnmarshalText | pkg/assets/link.go:124-149 | Each suffix form, its error cases, and what they leave in the receiver |
| LinkText.WholeLinkReads | pkg/assets/link.go:126-140 | `w link` is w times 10^18 juels, for every digit string w |
| LinkText.WholeLinkWrites | pkg/assets/link.go:98-102 | n times 10^18 juels are written `n link` |
| LinkText.FormByThreshold | pkg/assets/link.go:96-104 | From 10^12 juels on an amount is written in LINK, below in juels |
| LinkText.DecimalParts | pkg/assets/link.go:100-102 | The written decimal denotes the amount, its fraction does not end in a zero, its whole part has no leading zeros |
| LinkText.UnitSpellings | pkg/assets/link.go:124-147 | Juels with `juels` or no unit, a space before a unit or none, read the same |
| LinkText.DecimalRoundTrip | pkg/assets/link.go:100-102 | The trimmed 18-place decimal of every amount parses back to that amount |
| LinkText.TextRoundTrip | pkg/assets/link.go:98-149 | Every amount, negative and on either side of the threshold, is recovered from its text |
| LinkText.TextInjective | pkg/assets/link.go:98-104 | Different amounts never share a text |
| LinkText.LinkTextMeaning | pkg/assets/link.go:126-140 | A decimal LINK text, signed or not, with or without a point, denotes exactly the whole number of juels equal to it; otherwise the precision error |
| MercuryAggregator.MercuryRemoteAggregator.constructor | pkg/capabilities/triggers/mercury_remote_aggregator.go:25-37 | A fresh aggregator has an empty cache |
| MercuryAggregator.MercuryRemoteAggregator.SaveLatest | pkg/capabilities/triggers/mercury_remote_aggregator.go:54-78 | One report: the cache absorbs it, and the batch's map stays the cache restricted to the feeds seen |
| MercuryAggregator.MercuryRemoteAggregator.Aggregate | pkg/capabilities/triggers/mercury_remote_aggregator.go:39-97 | The cache absorbs the batch; the answer is the cached reports of the batch's feeds, or the error when there are none; of two answered feeds the one that ends, or has the smaller character, at their first difference comes first |
| MercuryAggregator.AbsorbAllHoldsLatest | pkg/capabilities/triggers/mercury_remote_aggregator.go:53-78 | For each feed the new cache holds a report with the maximum timestamp among the cached one and the batch's valid ones |
| MercuryAggregator.EarliestIsKept | pkg/capabilities/triggers/mercury_remote_aggregator.go:53-78 | Exactly which report is held: the cached one unless a valid one is later, else the first among the latest valid ones |
| MercuryAggregator.BatchInOrder | pkg/capabilities/triggers/mercury_remote_aggregator.go:42-54 | A batch is read in order of arrival, and an unreadable response contributes nothing |
| MercuryAggregator.BeforeMeaning | pkg/capabilities/triggers/mercury_remote_aggregator.go:88 | The order of feed ids spelled out by characters |
| MercuryAggregator.CacheHoldsLatestEver | pkg/capabilities/triggers/mercury_remote_aggregator.go:39-78 | Over any history of calls the cache holds, per feed, the latest valid report ever received, nothing else, and every cached report passed validation |
| MercuryAggregator.CacheMonotone | pkg/capabilities/triggers/mercury_remote_aggregator.go:39-78 | Along any history a cached feed stays and its timestamp never decreases |
| MercuryAggregator.PermutationIrrelevant | pkg/capabilities/triggers/mercury_remote_aggregator.go:39-97 | Permuting the responses changes neither the returned feeds nor their timestamps |
| CodecPath.NextSplits | pkg/codec/modifier_base.go:416-427 | A path is split at its first dot into head and tail; without a dot the tail is empty |
| CodecPath.ApplyOutcome | pkg/codec/utils.go:476-530 | Every outcome of an assignment: the mismatch error exactly when different types are behind the pointers, success exactly on assignable values, else a panic; only success changes the field |
| CodecPath.DerefMeaning | pkg/codec/utils.go:525-530 | What is behind the pointers of a type |
| CodecPath.ZeroValues | pkg/codec/utils.go:424 | What an allocated value holds: 0, nil, the empty slice, structs of those |
| CodecPath.FieldLookup | pkg/codec/utils.go:389-401 | A field is found by its name, behind pointers too, and by nothing else |
| CodecPath.PathComposes | pkg/codec/modifier_base.go:368-399 | A dotted path is read and typed one name at a time |
| CodecPath.ReadOutcome | pkg/codec/utils.go:374-418 | The outcome of a read: an error on a nil pointer, else the error of the path's type, or a value of it |
| CodecPath.SetOutcome | pkg/codec/utils.go:420-523 | The outcome of a write from the types alone, errors and panics included |
| CodecPath.ValueHasType | pkg/codec/modifier_base.go:368-399 | Whatever ValueForPath returns has the type typeForPath gives |
| CodecPath.SetThenGet | pkg/codec/utils.go:374-523 | A write succeeds exactly on a non-empty path that has a type the value can be assigned to; a read then returns the assigned value; types never change |
| CodecPath.SetThenGetSameType | pkg/codec/utils.go:374-523 | A value of the path's own type can be set and is read back unchanged |
| CodecPath.GetThenSet | pkg/codec/utils.go:374-523 | Writing back what was read changes nothing |
| CodecPath.SetThenSet | pkg/codec/utils.go:420-523 | The second of two successful writes to a path wins |
| CodecPath.OffPathUnchanged | pkg/codec/utils.go:420-523 | Whatever the outcome of a write, reads on diverging paths give the same value or error after it; only a read that failed on a nil pointer the write allocates may now give the zero value of its type |
| CodecPath.UnsettableExactly | pkg/codec/utils.go:476-523 | A write to a value that is not addressable succeeds exactly when it would on an addressable one and the path crosses a non-nil pointer before any nil one; it then has the same effect, except that a nil pointer assigned to that very pointer zeroes its target |
| CodecPath.UnsettableOutcome | pkg/codec/utils.go:476-523 | Every outcome of an assignment to a field that is not addressable: each error, success, and the panics |
| CodecMemory.Apply | pkg/codec/utils.go:476-523 | In memory: the field ends up holding the specified value; a pointer is stored as it is, a plain value is written through an existing pointer |
| CodecMemory.Set | pkg/codec/utils.go:420-474 | In memory: the structure afterwards holds exactly the specified value; every cell of it is determined: kept at each pointer that was not nil, allocated at nil pointers on the path, taken over from an assigned pointer, and identical off the path |
| CodecMemory.OffPathPointersKept | pkg/codec/utils.go:420-523 | On every diverging path the same pointers lead to the same cells, all the way down |
| CodecMemory.OnPathPointersKept | pkg/codec/utils.go:421-434 | Every non-nil pointer on the way to the end of the path keeps its cell |
| ValueMemory.Proto | pkg/values/value.go:201-207 | The message carries the encoding of the data in memory and refers to exactly the value's own byte arrays |
| ValueMemory.ListProto | pkg/values/list.go:28-34 | The loop over a list, nil elements included, with the byte arrays shared |
| ValueMemory.MapProto | pkg/values/map.go:39-50 | The loop over a map, in any order, with the byte arrays shared |
| ValueMemory.FromProto | pkg/values/value.go:213-244 | Builds the data the message denotes: its byte arrays are exactly the message's own, every other object is new |
| ValueMemory.FromListProto | pkg/values/value.go:262-277 | The loop over list fields: byte arrays shared with the message, everything else new |
| ValueMemory.FromMapProto | pkg/values/value.go:246-260 | The loop over map fields, in any order: byte arrays shared with the message, everything else new |
| ValueMemory.Copy | pkg/values/value.go:28-34 | An equal value of which every object is new, byte arrays, numbers, lists and tables included |
| ValueMemory.CopyList | pkg/values/list.go:45-55 | The loop over a list, in new objects only |
| ValueMemory.CopyMap | pkg/values/map.go:61-72 | The loop over a map, in any order, in new objects only |
| Values.SignedInverse | pkg/values/big_int.go:21-26 | Sign and big-endian magnitude of any integer determine it |
| Values.WireNumbers | pkg/values/big_int.go:21-26 | The wire form of a number: sign 1, 0 or -1, magnitude most significant byte first, no byte for zero |
| Values.DecodeInverts | pkg/values/value.go:201-301 | FromProto after Proto is the identity on every nested value |
| ValueMemory.ThereAndBack | pkg/values/value.go:201-244 | FromProto(Proto(v)) in memory: an equal value that shares with v exactly the arrays of its byte strings, and is disjoint from v exactly when it has none |
| ValueMemory.WriteAfterThereAndBack | pkg/values/bytes.go:13-19 | A byte written through the result is written in the original |
| ValueMemory.WriteAfterCopy | pkg/values/bytes.go:35-43 | A byte written through a copy is not |
| Values.ReencodesExactly | pkg/values/value.go:288-301 | A received integer is re-encoded to the very same bytes exactly when it has no leading zero byte and the sign of its number |
| Base64.DecodeInverts | pkg/chains/nodes.go:37-46 | Unpadded base64 decoding undoes encoding on every byte string |
| Base64.Alphabet | pkg/chains/nodes.go:37 | The alphabet of section 4 of RFC 4648, by character codes |
| Base64.TestVectors | pkg/chains/nodes.go:37 | Test vectors of section 10 of RFC 4648, without padding |
| Base64.Refused | pkg/chains/nodes.go:46-49 | A character outside the alphabet is refused wherever it stands |
| Base64.LineBreaksIgnored | pkg/chains/nodes.go:46 | Line breaks are ignored wherever they stand |
| Pagination.TwoPairs | pkg/chains/nodes.go:52-58 | Two plain key-value pairs joined as a query parse to exactly those pairs |
| Pagination.TokenSpelled | pkg/chains/nodes.go:22-43 | The text behind a token, and 100 as the default size of both an encoded and an empty token |
| Pagination.PageAndSize | pkg/chains/nodes.go:52-70 | A query of a page and a size, in either order, is a token exactly when both are 64-bit integers |
| Pagination.IncompleteQueries | pkg/chains/nodes.go:52-58 | A missing page or size is an invalid token, a semicolon spoils the query, of repeated keys the first counts |
| Pagination.QueryEscapes | pkg/chains/nodes.go:52 | Percent escapes in either case, and a plus sign for a space |
| Pagination.ShortPairs | pkg/chains/nodes.go:52 | Empty pairs are skipped; a key alone has the empty value |
| Pagination.BadEncodings | pkg/chains/nodes.go:46-49 | Texts that are no base64 are refused |
| Pagination.TokenRoundTrip | pkg/chains/nodes.go:29-71 | Decoding an encoded token gives its page and size, the default size filled in, for all 64-bit values; an encoded token is never empty |
| Pagination.PageToken.Encode | pkg/chains/nodes.go:29-38 | Fills in the receiver's default size and returns a non-empty token that decodes to the receiver's page and size |
| Pagination.ListNodeStatuses | pkg/chains/nodes.go:76-97 | For every size and token, with 64-bit wrap-around: a page exactly when the token and the window are good, a next token exactly when more remains, and one that decodes to the following page of the same size |
| Pagination.WrapsAround | pkg/chains/nodes.go:87 | Integer arithmetic is that of 64-bit two's complement |
| Pagination.DefaultPage | pkg/chains/nodes.go:76-96 | Without a page size the first page has 100 items and the next token stands for page 1 of size 100 |
| Pagination.PageIs | pkg/chains/nodes.go:87-96 | Page k of a list is its k-th window, with a next token exactly when more remains, or an error exactly when the window's end overflows |
| Pagination.PageCountMeaning | pkg/chains/nodes.go:87-96 | The page count is max(1, ceil(total / size)) |
| Pagination.TraversalCovers | pkg/chains/nodes.go:76-97 | Every complete traversal visits the contiguous windows, in exactly that many calls, and their concatenation is the whole list |
| Pagination.TraversalExists | pkg/chains/nodes.go:76-97 | A traversal exists exactly when the page size is positive (0 is the default) and the last window's end fits 64 bits |
| Pagination.UntraversableLists | pkg/chains/nodes.go:87-92 | Two concrete failures: a list of 2^62 + 1 items in pages of 2^62, and any list in pages of -1 |

## Left out

- Keccak and SHA internals: the hash is an arbitrary function from byte strings to 32 bytes.
- Hash injectivity is nowhere assumed; security statements name the collision instead. A hash function of fixed length
  has collisions, so an unrestricted "or some collision exists" would say nothing; only strings really hashed are meant.
- Index lists given to `Prove` that are unsorted, repeated or out of range: `MerkleProver.Prove` models what happens, no
  further property holds of them.
- Hooks and bodies that panic, wall-clock time and the 15-second limit of `Stop`, which is a stop hook that may fail at
  any time after closing its channel.
- Writer preference of the read-write lock: the model admits more interleavings than the lock does.
- StateMachines: its methods run one at a time; interleavings are the business of the step system in Lifecycle.
- `ErrorBuffer`, `Ready`, `Healthy` and the texts of errors.
- The `chWorkDone` channel and the context passed to Work.
- The third-party graph library, beyond the contract of `AddVertex` and `AddEdge`, which is implemented here.
- The rebuilt tree that `DeepMap` returns (`findRefs` drops it); triggers, configuration and the specification carried
  along in the dependency graph; the concatenation of actions, consensus and targets into one list of steps.
- LinkText.Link.UnmarshalText: exponent notation is an outcome of its own that is not evaluated, and what a failed
  integer parse leaves in the receiver is not stated, because the library leaves it undefined.
- LINK amounts as JSON, in databases, and nil receivers.
- The combined event timestamp, the metadata and the wrapping of the aggregated reports; unwrapping and validating a
  report are an arbitrary response and an arbitrary predicate.
- Map-kind, embedded and unexported fields, recursive struct types, and codec modifiers that go through other libraries.
- CodecMemory.Set: values that are not addressable, which CodecPath covers; pointers that are shared inside the structure
  or with the assigned value, and cyclic structures; after a panic of the reflection library nothing is stated about the
  memory.
- Marshalling a message to bytes and back, which would copy the byte arrays; slices that are parts of a larger array.
- Floats, times, unsigned integers, typed-nil pointers, `Wrap`, `Unwrap` and `DeleteAtPath` of values; messages that lack
  an inner message.
- The node list behind `ListNodeStatuses` is a parameter; the traversal theorems are for a list function that returns the
  requested window, cut off at the end, and rejects a window that does not start inside the list or ends before it starts.
- Quorum and batching helpers, configuration, networking, storage and generated code, which would only add easy members.
